/**
 The IPC system calls of kernel/src/task/ipc/mod.rs, with fork and exit.  `p` is the current
 task.  Results are the numbers the kernel returns: a slot or length, or a negative error.
*/
module Ipcs {
  import opened Prelude
  import opened IpcStates

  const IPC_OK := 0
  const IPC_EINVAL := -22
  const IPC_EBADF := -9
  const IPC_EAGAIN := -11
  const IPC_EMFILE := -24
  const IPC_EPIPE := -32
  const IPC_ENOENT := -2
  const IPC_EEXIST := -17
  const IPC_EMSGSIZE := -90

  const NEW_CHANNEL := Channel([0, 0], [Endpoint([], false), Endpoint([], false)])
  const OPEN_CHANNEL := Channel([1, 1], [Endpoint([], false), Endpoint([], false)])
  const DEAD_CHANNEL := Channel([0, 0], [Endpoint([], true), Endpoint([], true)])
  const NO_HISTORY := History([[], []], [[], []])

  ghost const NONE: multiset<Handle> := multiset{}

  // ---- the meaning of closing ----

  function ReleaseIn(chs: seq<Channel>, h: Handle): seq<Channel> {
    if h.ChannelEnd? && h.channel < |chs| && h.side < 2 == |chs[h.channel].refs| == |chs[h.channel].endpoints|
    then chs[h.channel := Release(chs[h.channel], h.side)] else chs
  }

  function ReleaseAll(chs: seq<Channel>, hs: seq<Handle>): seq<Channel>
    decreases |hs|
  {
    if hs == [] then chs else ReleaseAll(ReleaseIn(chs, hs[0]), hs[1..])
  }

  /** One reference less; the last holder of a listener also lets go of its pending connections. */
  function CloseRef(st: State, h: Handle): State {
    match h
    case ChannelEnd(_, _) => st.(channels := ReleaseIn(st.channels, h))
    case ListenerEnd(l) =>
      if l >= |st.listeners| || st.listeners[l].refs == 0 then st
      else if st.listeners[l].refs > 1 then
        st.(listeners := st.listeners[l := st.listeners[l].(refs := st.listeners[l].refs - 1)])
      else
        st.(listeners := st.listeners[l := Listener(0, [])],
            named := Unregister(st.named, l),
            channels := ReleaseAll(st.channels, st.listeners[l].pending))
  }

  // ---- how one side of a channel may develop ----

  function EndpointOf(st: State, c: nat, side: nat): Endpoint {
    if c < |st.channels| && side < |st.channels[c].endpoints| then st.channels[c].endpoints[side] else Endpoint([], true)
  }

  function SentTo(st: State, c: nat, side: nat): seq<Message> {
    if c < |st.history| && side < |st.history[c].sent| then st.history[c].sent[side] else []
  }

  function ReceivedAt(st: State, c: nat, side: nat): seq<Message> {
    if c < |st.history| && side < |st.history[c].received| then st.history[c].received[side] else []
  }

  predicate IsSuffix(x: seq<Message>, y: seq<Message>) {
    |x| <= |y| && x == y[|y| - |x|..]
  }

  /** Closing is final, histories only grow, and a half-closed channel takes no more messages. */
  ghost predicate SideEvolves(a: State, b: State, c: nat, side: nat)
    requires side < 2
  {
    && (EndpointOf(a, c, side).closed ==> EndpointOf(b, c, side).closed)
    && SentTo(a, c, side) <= SentTo(b, c, side)
    && ReceivedAt(a, c, side) <= ReceivedAt(b, c, side)
    && (EndpointOf(a, c, side).closed || EndpointOf(a, c, 1 - side).closed ==>
          SentTo(b, c, side) == SentTo(a, c, side) && IsSuffix(EndpointOf(b, c, side).queue, EndpointOf(a, c, side).queue))
  }

  ghost predicate Evolves(a: State, b: State) {
    && |a.channels| <= |b.channels| && |a.history| <= |b.history|
    && forall c: nat, side: nat :: c < |a.channels| && side < 2 ==> SideEvolves(a, b, c, side)
  }

  lemma EvolvesTransitive(a: State, b: State, c: State)
    requires Evolves(a, b) && Evolves(b, c)
    ensures Evolves(a, c)
  {
    forall ch: nat, side: nat | ch < |a.channels| && side < 2
      ensures SideEvolves(a, c, ch, side)
    {
      assert SideEvolves(a, b, ch, side) && SideEvolves(b, c, ch, side);
      assert SideEvolves(a, b, ch, 1 - side);
      assert SentTo(a, ch, side) <= SentTo(c, ch, side);
      assert ReceivedAt(a, ch, side) <= ReceivedAt(c, ch, side);
    }
  }

  /** Nothing was sent, received, bound or connected: at most references changed, and sides or listeners died. */
  ghost predicate OnlyCloses(a: State, b: State) {
    && SidesOnlyClose(a, b) && |b.listeners| == |a.listeners|
    && (forall l: nat :: l < |a.listeners| ==> ListenerOnlyDies(a, b, l))
    && (b.named == a.named || exists l: nat :: Died(a, b, l))
  }

  ghost predicate ListenerOnlyDies(a: State, b: State, l: nat)
    requires l < |a.listeners| && l < |b.listeners|
  {
    && (a.listeners[l].refs == 0 ==> b.listeners[l].refs == 0)
    && (b.listeners[l].pending == a.listeners[l].pending || b.listeners[l].refs == 0)
  }

  ghost predicate Died(a: State, b: State, l: nat) {
    l < |a.listeners| && l < |b.listeners| && a.listeners[l].refs > 0 && b.listeners[l].refs == 0
  }

  ghost predicate SidesOnlyClose(a: State, b: State) {
    && b.history == a.history && |b.channels| == |a.channels|
    && forall c: nat, side: nat :: c < |a.channels| && side < 2 ==>
         EndpointOf(b, c, side) == EndpointOf(a, c, side) || EndpointOf(b, c, side) == Endpoint([], true)
  }

  lemma ClosesEvolve(a: State, b: State)
    requires SidesOnlyClose(a, b)
    ensures Evolves(a, b)
  {
  }

  lemma OnlyClosesTransitive(a: State, b: State, c: State)
    requires OnlyCloses(a, b) && OnlyCloses(b, c)
    ensures OnlyCloses(a, c)
  {
    forall l: nat | l < |a.listeners|
      ensures ListenerOnlyDies(a, c, l)
    {
      assert ListenerOnlyDies(a, b, l) && ListenerOnlyDies(b, c, l);
    }
    if b.named != a.named {
      var l: nat :| Died(a, b, l);
      assert ListenerOnlyDies(b, c, l) && Died(a, c, l);
    } else if c.named != b.named {
      var l: nat :| Died(b, c, l);
      assert ListenerOnlyDies(a, b, l) && Died(a, c, l);
    }
  }

  lemma ReleaseInCloses(chs: seq<Channel>, h: Handle)
    ensures |ReleaseIn(chs, h)| == |chs|
    ensures forall c: nat, side: nat :: c < |chs| ==> ReleasedAt(chs, ReleaseIn(chs, h), c, side)
  {
  }

  ghost predicate ReleasedAt(a: seq<Channel>, b: seq<Channel>, c: nat, side: nat)
    requires c < |a| && c < |b|
  {
    && |b[c].endpoints| == |a[c].endpoints|
    && (side < |a[c].endpoints| ==> b[c].endpoints[side] == a[c].endpoints[side] || b[c].endpoints[side] == Endpoint([], true))
  }

  lemma {:induction false} ReleaseAllCloses(chs: seq<Channel>, hs: seq<Handle>)
    ensures |ReleaseAll(chs, hs)| == |chs|
    ensures forall c: nat, side: nat :: c < |chs| ==> ReleasedAt(chs, ReleaseAll(chs, hs), c, side)
    decreases |hs|
  {
    if hs != [] {
      var next := ReleaseIn(chs, hs[0]);
      ReleaseInCloses(chs, hs[0]);
      ReleaseAllCloses(next, hs[1..]);
      forall c: nat, side: nat | c < |chs|
        ensures ReleasedAt(chs, ReleaseAll(chs, hs), c, side)
      {
        assert ReleasedAt(chs, next, c, side) && ReleasedAt(next, ReleaseAll(next, hs[1..]), c, side);
      }
    }
  }

  lemma CloseRefOnlyCloses(st: State, h: Handle)
    ensures OnlyCloses(st, CloseRef(st, h))
  {
    var b := CloseRef(st, h);
    ReleaseInCloses(st.channels, h);
    if h.ListenerEnd? && h.listener < |st.listeners| {
      ReleaseAllCloses(st.channels, st.listeners[h.listener].pending);
    }
    forall c: nat, side: nat | c < |st.channels| && side < 2
      ensures EndpointOf(b, c, side) == EndpointOf(st, c, side) || EndpointOf(b, c, side) == Endpoint([], true)
    {
      assert b.channels == st.channels || ReleasedAt(st.channels, b.channels, c, side);
    }
    if b.named != st.named {
      assert Died(st, b, h.listener);
    }
  }

  class IpcSystem {
    var tables: seq<Option<HandleTable>>
    var channels: seq<Channel>
    var listeners: seq<Listener>
    var named: seq<(string, nat)>
    ghost var history: seq<History>

    ghost function S(): State
      reads this
    {
      State(tables, channels, listeners, named, history)
    }

    /** The invariant between system calls: no handle is in flight. */
    ghost predicate Valid()
      reads this
    {
      S().Inv(NONE, {})
    }

    /** The first task, with an empty handle table. */
    constructor ()
      ensures Valid() && |tables| == 1 && S().Live(0) && forall i :: 0 <= i < MAX_HANDLES ==> tables[0].value[i].None?
      ensures channels == [] && listeners == [] && named == [] && history == []
    {
      var empty: HandleTable := seq(MAX_HANDLES, _ => None);
      tables := [Some(empty)];
      channels := [];
      listeners := [];
      named := [];
      history := [];
      new;
      FirstState(S(), empty);
    }

    // ---- references ----

    /** Drops one reference; `extra` and `loose` describe the running system call. */
    method CloseHandleRef(h: Handle, ghost extra: multiset<Handle>, ghost loose: set<nat>)
      requires S().Inv(extra + multiset{h}, loose)
      modifies this
      ensures S().Inv(extra, loose)
      ensures old(S()).Known(h) && old(S()).Refs(h) > 0 && S() == CloseRef(old(S()), h)
      decreases if h.ListenerEnd? then 2 else 0
    {
      ghost var a := S();
      assert a.Known(h) && a.Refs(h) > 0 by {
        assert (extra + multiset{h})[h] > 0;
      }
      match h
      case ChannelEnd(c, side) =>
        assert a.ChannelFine(c);
        if channels[c].refs[side] != 0 {
          channels := channels[c := Release(channels[c], side)];
        }
        ReleaseKeeps(a, S(), c, side, extra, loose);
      case ListenerEnd(l) =>
        if listeners[l].refs != 0 {
          if listeners[l].refs - 1 == 0 {
            var pending := listeners[l].pending;
            listeners := listeners[l := Listener(0, [])];
            named := Unregister(named, l);
            CloseListenerKeeps(a, S(), l, extra, loose);
            assert a.ListenerFine(l, loose);
            ClosePending(pending, extra, loose);
          } else {
            listeners := listeners[l := listeners[l].(refs := listeners[l].refs - 1)];
            DropListenerKeeps(a, S(), l, extra, loose);
          }
        }
    }

    /** Drops every pending connection of a dead listener. */
    method ClosePending(pending: seq<Handle>, ghost extra: multiset<Handle>, ghost loose: set<nat>)
      requires S().Inv(extra + multiset(pending), loose)
      requires forall i :: 0 <= i < |pending| ==> pending[i].ChannelEnd?
      modifies this
      ensures S().Inv(extra, loose)
      ensures S() == old(S()).(channels := ReleaseAll(old(channels), pending))
      decreases 1
    {
      ghost var a := S();
      assert extra + multiset(pending) == extra + multiset(pending[0..]) by { assert pending[0..] == pending; }
      for i := 0 to |pending|
        invariant S().Inv(extra + multiset(pending[i..]), loose)
        invariant S() == a.(channels := channels)
        invariant ReleaseAll(channels, pending[i..]) == ReleaseAll(a.channels, pending)
      {
        assert pending[i..] == [pending[i]] + pending[i + 1..];
        assert extra + multiset(pending[i..]) == extra + multiset(pending[i + 1..]) + multiset{pending[i]};
        CloseHandleRef(pending[i], extra + multiset(pending[i + 1..]), loose);
      }
      assert extra + multiset(pending[|pending|..]) == extra;
    }

    /** One more reference to the object behind a handle that somebody holds. */
    method DupHandleRef(h: Handle, ghost extra: multiset<Handle>)
      requires S().Inv(extra, {}) && InTables(tables, h) > 0
      modifies this`channels, this`listeners
      ensures S().Inv(extra + multiset{h}, {})
      ensures S() == old(S()).(channels := channels, listeners := listeners)
      ensures CloseRef(S(), h) == old(S())
      ensures OnlyCloses(old(S()), S())
    {
      ghost var a := S();
      assert a.Known(h) && a.Refs(h) > 0;
      match h
      case ChannelEnd(c, side) =>
        assert a.ChannelFine(c);
        channels := channels[c := channels[c].(refs := channels[c].refs[side := channels[c].refs[side] + 1])];
        DupChannelKeeps(a, S(), c, side, extra, {});
        assert ReleaseIn(channels, h) == a.channels by {
          assert Release(channels[c], side) == a.channels[c] by {
            assert Release(channels[c], side).refs == a.channels[c].refs;
          }
        }
      case ListenerEnd(l) =>
        listeners := listeners[l := listeners[l].(refs := listeners[l].refs + 1)];
        DupListenerKeeps(a, S(), l, extra, {});
        assert CloseRef(S(), h).listeners == a.listeners;
    }

    // ---- handle tables ----

    /** The first free slot of the process's table. */
    method FirstFree(p: nat, start: nat) returns (slot: Option<nat>)
      requires S().Live(p)
      ensures slot.Some? ==> IsFirstFree(tables[p].value, start, slot.value)
      ensures slot.None? ==> forall j :: start <= j < MAX_HANDLES ==> tables[p].value[j].Some?
    {
      var t := tables[p].value;
      var i := start;
      while i < MAX_HANDLES
        invariant start <= i
        invariant forall j :: start <= j < i && j < MAX_HANDLES ==> t[j].Some?
      {
        if t[i].None? {
          return Some(i);
        }
        i := i + 1;
      }
      return None;
    }

    /** Puts a handle in flight into the first free slot, if there is one. */
    method InstallCurrentHandle(p: nat, h: Handle, ghost extra: multiset<Handle>, ghost loose: set<nat>) returns (slot: Option<nat>)
      requires S().Live(p) && S().Inv(extra + multiset{h}, loose)
      modifies this`tables
      ensures slot.Some? ==> S().Inv(extra, loose) && IsFirstFree(old(tables)[p].value, 0, slot.value)
      ensures slot.Some? ==> tables == old(tables)[p := Some(old(tables)[p].value[slot.value := Some(h)])]
      ensures slot.None? ==> S() == old(S()) && forall j :: 0 <= j < MAX_HANDLES ==> tables[p].value[j].Some?
    {
      ghost var a := S();
      slot := FirstFree(p, 0);
      if slot.Some? {
        tables := tables[p := Some(tables[p].value[slot.value := Some(h)])];
        InstallKeeps(a, S(), extra, loose, p, slot.value, h);
      }
    }

    // ---- system calls ----

    /** A new channel with both ends in the caller's first two free slots. */
    method SysCreate(p: nat) returns (ret: int, rdx: int)
      requires Valid() && S().Live(p)
      modifies this
      ensures Valid() && Evolves(old(S()), S())
      ensures ret == -24 || 0 <= ret < rdx < 64
      ensures ret != -24 ==> var t := old(tables)[p].value; var c := |old(channels)|;
        && IsFirstFree(t, 0, ret) && IsFirstFree(t, ret + 1, rdx)
        && S() == old(S()).(
             tables := old(tables)[p := Some(t[ret := Some(ChannelEnd(c, 0))][rdx := Some(ChannelEnd(c, 1))])],
             channels := old(channels) + [OPEN_CHANNEL], history := old(history) + [NO_HISTORY])
      ensures ret == -24 ==>
        && (forall i, j :: 0 <= i < j < 64 ==> old(tables)[p].value[i].Some? || old(tables)[p].value[j].Some?)
        && S() == old(S()).(channels := old(channels) + [DEAD_CHANNEL], history := old(history) + [NO_HISTORY])
    {
      ghost var a := S();
      var c := NewChannel(NONE);
      var handle0, handle1 := ChannelEnd(c, 0), ChannelEnd(c, 1);
      ghost var b := S();
      var slot0 := FirstFree(p, 0);
      var slot1 := None;
      if slot0.Some? {
        slot1 := FirstFree(p, slot0.value + 1);
      }
      if slot1.None? {
        AbandonChannel(c);
        assert channels == a.channels + [DEAD_CHANNEL];
        NewChannelEvolves(a, S(), DEAD_CHANNEL);
        return IPC_EMFILE, 0;
      }
      assert NONE + multiset{handle0, handle1} == NONE + multiset{handle1} + multiset{handle0};
      tables := tables[p := Some(tables[p].value[slot0.value := Some(handle0)])];
      InstallKeeps(b, S(), NONE + multiset{handle1}, {}, p, slot0.value, handle0);
      ghost var b1 := S();
      tables := tables[p := Some(tables[p].value[slot1.value := Some(handle1)])];
      InstallKeeps(b1, S(), NONE, {}, p, slot1.value, handle1);
      NewChannelEvolves(a, S(), OPEN_CHANNEL);
      return slot0.value, slot1.value;
    }

    /** A channel with one counted handle for each side, both in flight. */
    method NewChannel(ghost extra: multiset<Handle>) returns (c: nat)
      requires S().Inv(extra, {})
      modifies this`channels, this`history
      ensures c == |old(channels)|
      ensures channels == old(channels) + [OPEN_CHANNEL] && history == old(history) + [NO_HISTORY]
      ensures S().Inv(extra + multiset{ChannelEnd(c, 0), ChannelEnd(c, 1)}, {})
    {
      ghost var a := S();
      c := |channels|;
      channels := channels + [NEW_CHANNEL];
      history := history + [NO_HISTORY];
      channels := channels[c := channels[c].(refs := channels[c].refs[0 := channels[c].refs[0] + 1])];
      channels := channels[c := channels[c].(refs := channels[c].refs[1 := channels[c].refs[1] + 1])];
      assert NEW_CHANNEL.refs[0 := 1][1 := 1] == OPEN_CHANNEL.refs;
      assert channels == a.channels + [OPEN_CHANNEL];
      ChannelAdded(a, S(), extra);
    }

    /** Lets go of both ends of a channel nobody has seen yet. */
    method AbandonChannel(c: nat)
      requires S().Inv(NONE + multiset{ChannelEnd(c, 0), ChannelEnd(c, 1)}, {})
      requires c < |channels| && channels[c] == OPEN_CHANNEL
      modifies this
      ensures Valid() && S() == old(S()).(channels := old(channels)[c := DEAD_CHANNEL])
    {
      ghost var a := S();
      assert NONE + multiset{ChannelEnd(c, 0), ChannelEnd(c, 1)} == NONE + multiset{ChannelEnd(c, 1)} + multiset{ChannelEnd(c, 0)};
      CloseHandleRef(ChannelEnd(c, 0), NONE + multiset{ChannelEnd(c, 1)}, {});
      CloseHandleRef(ChannelEnd(c, 1), NONE, {});
      OpenThenDead();
      assert channels == a.channels[c := DEAD_CHANNEL];
    }

    /** Lets go of a listener that is in no table and no longer, or not yet, registered. */
    method AbandonListener(l: nat)
      requires S().Inv(NONE + multiset{ListenerEnd(l)}, {l})
      requires l < |listeners| && listeners[l] == Listener(1, [])
      modifies this
      ensures Valid() && S() == old(S()).(listeners := old(listeners)[l := Listener(0, [])])
    {
      ghost var a := S();
      assert !a.Registered(l) by { assert a.ListenerFine(l, {l}); }
      CloseHandleRef(ListenerEnd(l), NONE, {l});
      LooseIsDead(S(), l);
    }

    /** Appends a message to the peer's queue. */
    method SysSend(p: nat, handleId: nat, msg: Message) returns (ret: int)
      requires Valid() && S().Live(p)
      modifies this`channels, this`history
      ensures Valid() && Evolves(old(S()), S())
      ensures |msg| > 4096 ==> ret == -90
      ensures |msg| <= 4096 && !HoldsChannel(old(S()), p, handleId) ==> ret == -9
      ensures |msg| <= 4096 ==> forall c, side :: HoldsAt(old(S()), p, handleId, ChannelEnd(c, side)) ==>
        SendAnswers(old(S()), S(), c, side, msg, ret)
      ensures ret == SendResult(old(S()), p, handleId, msg)
      ensures ret < 0 ==> S() == old(S())
      ensures ret >= 0 ==> SentThrough(old(S()), S(), HandleAt(old(S()), p, handleId), msg)
    {
      if |msg| > MAX_MSG_SIZE {
        return IPC_EMSGSIZE;
      }
      var handle := HandleAt(State(tables, channels, listeners, named, []), p, handleId);
      if handle.None? || handle.value.ListenerEnd? {
        return IPC_EBADF;
      }
      var c, side := handle.value.channel, handle.value.side;
      HeldHandle(S(), p, handleId);
      var dest := 1 - side;
      if channels[c].endpoints[side].closed || channels[c].endpoints[dest].closed {
        return IPC_EPIPE;
      }
      var endpoint := channels[c].endpoints[dest];
      if |endpoint.queue| >= QUEUE_DEPTH {
        return IPC_EAGAIN;
      }
      ghost var a := S();
      channels := channels[c := channels[c].(endpoints := channels[c].endpoints[dest := endpoint.(queue := endpoint.queue + [msg])])];
      history := history[c := history[c].(sent := history[c].sent[dest := history[c].sent[dest] + [msg]])];
      SendKeeps(a, S(), c, dest, msg);
      return |msg|;
    }

    /** Takes the oldest message from the caller's own queue; at most `len` bytes of it are returned. */
    method SysRecv(p: nat, handleId: nat, len: nat) returns (ret: int, data: Message)
      requires Valid() && S().Live(p)
      modifies this`channels, this`history
      ensures Valid() && Evolves(old(S()), S())
      ensures !HoldsChannel(old(S()), p, handleId) ==> ret == -9
      ensures forall c, side :: HoldsAt(old(S()), p, handleId, ChannelEnd(c, side)) ==>
        RecvAnswers(old(S()), S(), c, side, len, ret, data)
      ensures ret == RecvResult(old(S()), p, handleId, len)
      ensures RecvTakes(old(S()), p, handleId) ==> ReceivedThrough(old(S()), S(), HandleAt(old(S()), p, handleId), data, ret)
      ensures !RecvTakes(old(S()), p, handleId) ==> S() == old(S()) && data == []
    {
      data := [];
      var handle := HandleAt(State(tables, channels, listeners, named, []), p, handleId);
      if handle.None? || handle.value.ListenerEnd? {
        return IPC_EBADF, data;
      }
      var c, side := handle.value.channel, handle.value.side;
      HeldHandle(S(), p, handleId);
      var endpoint := channels[c].endpoints[side];
      if endpoint.queue != [] {
        ghost var a := S();
        var message := endpoint.queue[0];
        channels := channels[c := channels[c].(endpoints := channels[c].endpoints[side := endpoint.(queue := endpoint.queue[1..])])];
        history := history[c := history[c].(received := history[c].received[side := history[c].received[side] + [message]])];
        RecvKeeps(a, S(), c, side);
        var copyLen := if len < |message| then len else |message|;
        return copyLen, message[..copyLen];
      }
      if channels[c].endpoints[1 - side].closed || endpoint.closed {
        return IPC_OK, data;
      }
      return IPC_EAGAIN, data;
    }

    method SysClose(p: nat, handleId: nat) returns (ret: int)
      requires Valid() && S().Live(p)
      modifies this
      ensures Valid() && Evolves(old(S()), S())
      ensures ret == if HoldsSome(old(S()), p, handleId) then 0 else -9
      ensures ret == IPC_EBADF ==> S() == old(S())
      ensures ret == IPC_OK ==>
        S() == CloseRef(old(S()).(tables := old(tables)[p := Some(old(tables)[p].value[handleId := None])]),
                        HandleAt(old(S()), p, handleId).value)
    {
      if handleId >= MAX_HANDLES || tables[p].value[handleId].None? {
        return IPC_EBADF;
      }
      ghost var a := S();
      var handle := tables[p].value[handleId].value;
      tables := tables[p := Some(tables[p].value[handleId := None])];
      ghost var b := S();
      TakeKeeps(a, b, NONE, {}, p, handleId, handle);
      CloseHandleRef(handle, NONE, {});
      CloseRefOnlyCloses(b, handle);
      ClosesEvolve(b, S());
      SameChannelsEvolve(a, b);
      EvolvesTransitive(a, b, S());
      return IPC_OK;
    }

    /** A second slot for the same handle. */
    method SysDup(p: nat, handleId: nat) returns (ret: int)
      requires Valid() && S().Live(p)
      modifies this
      ensures Valid() && Evolves(old(S()), S())
      ensures ret == -9 <==> !HoldsSome(old(S()), p, handleId)
      ensures ret == -24 <==> HoldsSome(old(S()), p, handleId) && NoFreeSlot(old(S()), p)
      ensures ret < 0 ==> S() == old(S()) && (ret == IPC_EBADF || ret == IPC_EMFILE)
      ensures ret >= 0 ==> IsFirstFree(old(tables)[p].value, 0, ret) && named == old(named) && history == old(history)
      ensures ret >= 0 ==> tables == old(tables)[p := Some(old(tables)[p].value[ret := HandleAt(old(S()), p, handleId)])]
      ensures ret >= 0 ==> CloseRef(S(), HandleAt(S(), p, handleId).value).(tables := old(tables)) == old(S())
    {
      var source := HandleAt(State(tables, channels, listeners, named, []), p, handleId);
      if source.None? {
        return IPC_EBADF;
      }
      ret := DupHandle(p, handleId, source.value);
    }

    /** The same for a handle that is there. */
    method DupHandle(p: nat, handleId: nat, h: Handle) returns (ret: int)
      requires Valid() && HandleAt(S(), p, handleId) == Some(h)
      modifies this
      ensures Valid() && Evolves(old(S()), S())
      ensures ret < 0 ==> ret == IPC_EMFILE && IsFull(old(tables)[p].value) && S() == old(S())
      ensures ret >= 0 ==> IsFirstFree(old(tables)[p].value, 0, ret) && named == old(named) && history == old(history)
      ensures ret >= 0 ==> tables == old(tables)[p := Some(old(tables)[p].value[ret := Some(h)])]
      ensures ret >= 0 ==> CloseRef(S(), h).(tables := old(tables)) == old(S())
    {
      ghost var a := S();
      HeldHandle(a, p, handleId);
      DupHandleRef(h, NONE);
      ghost var b := S();
      var slot := InstallCurrentHandle(p, h, NONE, {});
      ClosesEvolve(a, b);
      if slot.None? {
        CloseHandleRef(h, NONE, {});
        return IPC_EMFILE;
      }
      SameChannelsEvolve(b, S());
      EvolvesTransitive(a, b, S());
      return slot.value;
    }

    /**
     Registers a new listener under a free name.  `name` is None when the argument is no valid
     name.  A refused call leaves behind at most an object that nobody can reach.
    */
    method SysBind(p: nat, name: Option<string>) returns (ret: int)
      requires Valid() && S().Live(p)
      modifies this
      ensures Valid() && Evolves(old(S()), S())
      ensures ret == -22 <==> name.None?
      ensures ret == -17 <==> name.Some? && IsNamed(old(S()), name.value)
      ensures ret == -24 <==> name.Some? && !IsNamed(old(S()), name.value) && NoFreeSlot(old(S()), p)
      ensures ret < 0 ==> ret in {-22, -17, -24}
      ensures ret == IPC_EINVAL ==> S() == old(S())
      ensures ret < 0 && ret != IPC_EINVAL ==> S() == old(S()).(listeners := old(listeners) + [Listener(0, [])])
      ensures ret >= 0 ==> IsFirstFree(old(tables)[p].value, 0, ret)
      ensures ret >= 0 ==> S() == Bound(old(S()), p, ret, name.value)
    {
      if name.None? {
        return IPC_EINVAL;
      }
      ghost var a := S();
      var l := |listeners|;
      listeners := listeners + [Listener(1, [])];
      ListenerAdded(a, S());
      if HasName(named, name.value) {
        AbandonListener(l);
        assert listeners == a.listeners + [Listener(0, [])];
        return IPC_EEXIST;
      }
      var slot := RegisterAndInstall(p, l, name.value);
      SameChannelsEvolve(a, S());
      if slot.None? {
        assert listeners == a.listeners + [Listener(0, [])];
        return IPC_EMFILE;
      }
      return slot.value;
    }

    /** The second half of bind: push the name, install the handle, and undo both if the table is full. */
    method RegisterAndInstall(p: nat, l: nat, name: string) returns (slot: Option<nat>)
      requires S().Inv(NONE + multiset{ListenerEnd(l)}, {l}) && S().Live(p)
      requires l < |listeners| && listeners[l] == Listener(1, []) && !HasName(named, name)
      modifies this
      ensures Valid()
      ensures slot.Some? ==> IsFirstFree(old(tables)[p].value, 0, slot.value)
      ensures slot.Some? ==> S() == old(S()).(tables := WithHandle(old(S()), p, slot.value, ListenerEnd(l)), named := old(named) + [(name, l)])
      ensures slot.None? ==> IsFull(old(tables)[p].value) && S() == old(S()).(listeners := old(listeners)[l := Listener(0, [])])
    {
      ghost var a := S();
      named := named + [(name, l)];
      RegisterKeeps(a, S(), l, name, NONE + multiset{ListenerEnd(l)});
      slot := InstallCurrentHandle(p, ListenerEnd(l), NONE, {});
      if slot.None? {
        NewestByName(a.named, name, l);
        named := UnregisterByName(named, name);
        assert S() == a;
        AbandonListener(l);
      }
    }

    /** A new channel to the listener of that name: the caller's end installed, the other one pending. */
    method SysConnect(p: nat, name: Option<string>) returns (ret: int)
      requires Valid() && S().Live(p)
      modifies this
      ensures Valid() && Evolves(old(S()), S())
      ensures ret == -22 <==> name.None?
      ensures ret == -2 <==> name.Some? && !IsNamed(old(S()), name.value)
      ensures ret == -24 <==> name.Some? && IsNamed(old(S()), name.value) && NoFreeSlot(old(S()), p)
      ensures ret < 0 ==> ret in {-22, -2, -24}
      ensures ret == IPC_EINVAL || ret == IPC_ENOENT ==> S() == old(S())
      ensures ret == IPC_EMFILE ==>
        S() == old(S()).(channels := old(channels) + [DEAD_CHANNEL], history := old(history) + [NO_HISTORY])
      ensures ret >= 0 ==> IsFirstFree(old(tables)[p].value, 0, ret)
      ensures ret >= 0 ==> S() == Connected(old(S()), p, ret, ListenerNamed(old(named), name.value))
    {
      if name.None? {
        return IPC_EINVAL;
      }
      if !HasName(named, name.value) {
        return IPC_ENOENT;
      }
      ghost var a := S();
      var l := ListenerNamed(named, name.value);
      var c := NewChannel(NONE);
      var client, server := ChannelEnd(c, 0), ChannelEnd(c, 1);
      assert NONE + multiset{client, server} == NONE + multiset{server} + multiset{client};
      ghost var b := S();
      var slot := InstallCurrentHandle(p, client, NONE + multiset{server}, {});
      if slot.Some? {
        ghost var b1 := S();
        assert b1.Registered(l) && b1.ListenerFine(l, {});
        listeners := listeners[l := listeners[l].(pending := listeners[l].pending + [server])];
        PendKeeps(b1, S(), l, server, NONE, listeners[l].pending);
        NewChannelEvolves(a, S(), OPEN_CHANNEL);
        return slot.value;
      }
      AbandonChannel(c);
      assert channels == a.channels + [DEAD_CHANNEL];
      NewChannelEvolves(a, S(), DEAD_CHANNEL);
      return IPC_EMFILE;
    }

    /** Installs the oldest pending connection of the caller's listener, or puts it back in front. */
    method SysAccept(p: nat, handleId: nat) returns (ret: int)
      requires Valid() && S().Live(p)
      modifies this
      ensures Valid() && Evolves(old(S()), S())
      ensures ret == -9 <==> !HoldsListener(old(S()), p, handleId)
      ensures ret == -11 <==> HoldsListener(old(S()), p, handleId) && !SomePending(old(S()), p, handleId)
      ensures ret == -24 <==> SomePending(old(S()), p, handleId) && NoFreeSlot(old(S()), p)
      ensures ret < 0 ==> ret in {-9, -11, -24}
      ensures ret < 0 ==> S() == old(S())
      ensures ret >= 0 ==> IsFirstFree(old(tables)[p].value, 0, ret)
      ensures ret >= 0 ==> S() == Accepted(old(S()), p, ret, HandleAt(old(S()), p, handleId).value.listener)
    {
      var handle := HandleAt(State(tables, channels, listeners, named, []), p, handleId);
      if handle.None? || handle.value.ChannelEnd? {
        return IPC_EBADF;
      }
      ghost var a := S();
      var l := handle.value.listener;
      HeldHandle(a, p, handleId);
      if listeners[l].pending == [] {
        return IPC_EAGAIN;
      }
      assert a.ListenerFine(l, {});
      var conn := listeners[l].pending[0];
      listeners := listeners[l := listeners[l].(pending := listeners[l].pending[1..])];
      UnpendKeeps(a, S(), l, NONE);
      SameChannelsEvolve(a, S());
      var slot := InstallCurrentHandle(p, conn, NONE, {});
      SameChannelsEvolve(a, S());
      if slot.Some? {
        return slot.value;
      }
      assert [conn] + a.listeners[l].pending[1..] == a.listeners[l].pending;
      listeners := listeners[l := listeners[l].(pending := [conn] + listeners[l].pending)];
      assert listeners == a.listeners;
      return IPC_EMFILE;
    }

    // ---- fork and exit ----

    /** The table a forked child starts with: every handle of the parent once more. */
    method CloneHandleTable(p: nat) returns (copy: HandleTable)
      requires Valid() && S().Live(p)
      modifies this`channels, this`listeners
      ensures copy == old(tables)[p].value && OnlyCloses(old(S()), S())
      ensures S() == old(S()).(channels := channels, listeners := listeners)
      ensures S().Inv(TableHandles(copy), {})
    {
      var slots: seq<Option<Handle>> := [];
      ghost var a, b := S(), S();
      assert Cloning(a, b, slots);
      for idx := 0 to MAX_HANDLES
        invariant b == S() && Cloning(a, b, slots)
        invariant slots == a.tables[p].value[..idx]
      {
        var slot := DupSlot(p, idx, a);
        slots := slots + [slot];
        b := S();
      }
      assert slots == a.tables[p].value;
      copy := slots;
    }

    /** One turn of the loop over the parent's table. */
    method DupSlot(p: nat, idx: nat, ghost a: State) returns (slot: Option<Handle>)
      requires a.Live(p) && idx < MAX_HANDLES && Cloning(a, S(), a.tables[p].value[..idx])
      modifies this`channels, this`listeners
      ensures slot == a.tables[p].value[idx] && a.tables[p].value[..idx + 1] == a.tables[p].value[..idx] + [slot]
      ensures Cloning(a, S(), a.tables[p].value[..idx] + [slot])
    {
      ghost var b := S();
      ghost var before := tables[p].value[..idx];
      slot := tables[p].value[idx];
      assert tables[p].value[..idx + 1] == before + [slot];
      HandlesAppend(before, slot);
      if slot.Some? {
        HeldInTable(S(), p, idx);
        DupHandleRef(slot.value, HandlesIn(before));
        OnlyClosesTransitive(a, b, S());
      }
    }

    /** Fork gives the new task the cloned table; process numbers are never used twice. */
    method ForkHandles(p: nat, child: nat)
      requires Valid() && S().Live(p) && !S().Live(child)
      modifies this
      ensures Valid() && Evolves(old(S()), S())
      ensures S().Live(child) && tables[child] == old(tables)[p]
      ensures forall q: nat :: q != child ==> S().Live(q) == old(S()).Live(q) && (S().Live(q) ==> tables[q] == old(tables)[q])
      ensures named == old(named) && history == old(history) && OnlyCloses(old(S()), S())
      ensures |old(tables)| <= |tables|
    {
      ghost var a := S();
      var copy := CloneHandleTable(p);
      ghost var b := S();
      ghost var more: nat := if |tables| <= child then child + 1 - |tables| else 0;
      if |tables| <= child {
        tables := tables + seq(child + 1 - |tables|, _ => None);
      }
      assert tables == b.tables + seq(more, _ => None);
      ghost var b1 := S();
      tables := tables[child := Some(copy)];
      TableAdded(b, b1, S(), child, copy, more);
      OnlyClosesTransitive(a, b, S());
      ClosesEvolve(a, S());
    }

    /** Exit lets go of every handle of the task, in slot order. */
    method ReleaseHandleTable(p: nat)
      requires Valid() && S().Live(p)
      modifies this
      ensures Valid() && Evolves(old(S()), S()) && OnlyCloses(old(S()), S())
      ensures |tables| == |old(tables)| && !S().Live(p)
      ensures forall q: nat :: q < |tables| && q != p ==> tables[q] == old(tables)[q]
      ensures S() == ClosedAll(old(S()).(tables := tables), old(tables)[p].value)
    {
      ghost var a := S();
      ghost var t := tables[p].value;
      assert t[0..] == t && a.(tables := a.tables) == a;
      for slot := 0 to MAX_HANDLES
        invariant Valid() && S().Live(p) && |tables| == |a.tables|
        invariant forall q: nat :: q < |tables| && q != p ==> tables[q] == a.tables[q]
        invariant forall j :: 0 <= j < slot ==> tables[p].value[j].None?
        invariant forall j :: slot <= j < MAX_HANDLES ==> tables[p].value[j] == t[j]
        invariant OnlyCloses(a, S())
        invariant forall ts :: ClosedAll(S().(tables := ts), t[slot..]) == ClosedAll(a.(tables := ts), t)
      {
        assert t[slot..] == [t[slot]] + t[slot + 1..];
        var handle := tables[p].value[slot];
        if handle.Some? {
          ghost var b := S();
          ReleaseSlot(p, slot, handle.value);
          OnlyClosesTransitive(a, b, S());
        }
      }
      assert t[MAX_HANDLES..] == [];
      ghost var b := S();
      tables := tables[p := None];
      EmptyTableDropped(b, S(), p);
      OnlyClosesTransitive(a, b, S());
      ClosesEvolve(a, S());
    }

    /** A task forks and the child exits: but for the length of the task list nothing has changed. */
    method ForkThenExit(p: nat, child: nat)
      requires Valid() && S().Live(p) && !S().Live(child)
      modifies this
      ensures Valid() && S() == old(S()).(tables := tables)
      ensures forall q: nat :: S().Live(q) == old(S()).Live(q) && (S().Live(q) ==> tables[q] == old(tables)[q])
    {
      ghost var a := S();
      ForkHandles(p, child);
      ghost var b := S();
      ReleaseHandleTable(child);
      IpcExitUndoesFork(a, b, S(), child);
    }

    /** One turn of the loop over the table. */
    method ReleaseSlot(p: nat, slot: nat, h: Handle)
      requires Valid() && S().Live(p) && slot < MAX_HANDLES && tables[p].value[slot] == Some(h)
      modifies this
      ensures Valid() && OnlyCloses(old(S()), S())
      ensures S() == CloseRef(old(S()).(tables := old(tables)[p := Some(old(tables)[p].value[slot := None])]), h)
      ensures forall ts :: S().(tables := ts) == CloseRef(old(S()).(tables := ts), h)
    {
      ghost var a := S();
      tables := tables[p := Some(tables[p].value[slot := None])];
      ghost var b := S();
      TakeKeeps(a, b, NONE, {}, p, slot, h);
      CloseHandleRef(h, NONE, {});
      CloseRefOnlyCloses(b, h);
      OnlyClosesTransitive(a, b, S());
    }
  }

  /** With no handle and no object the invariant holds. */
  lemma FirstState(st: State, empty: HandleTable)
    requires st == State([Some(empty)], [], [], [], []) && forall i :: 0 <= i < MAX_HANDLES ==> empty[i].None?
    ensures st.Inv(NONE, {})
  {
    forall h: Handle
      ensures st.Held(h) == 0
    {
      assert Some(h) !in empty;
      assert multiset(empty)[Some(h)] == 0;
      assert InTables(st.tables, h) == multiset(empty)[Some(h)] + InTables(st.tables[1..], h);
      assert st.tables[1..] == [] && InPending(st.listeners, h) == 0;
    }
  }

  predicate IsFirstFree(t: HandleTable, start: nat, slot: nat) {
    start <= slot < MAX_HANDLES && t[slot].None? && forall j :: start <= j < slot ==> t[j].Some?
  }

  lemma ChannelAdded(a: State, b: State, extra: multiset<Handle>)
    requires a.Inv(extra, {})
    requires b == a.(channels := a.channels + [OPEN_CHANNEL], history := a.history + [NO_HISTORY])
    ensures b.Inv(extra + multiset{ChannelEnd(|a.channels|, 0), ChannelEnd(|a.channels|, 1)}, {})
  {
    var c := |a.channels|;
    var extra' := extra + multiset{ChannelEnd(c, 0), ChannelEnd(c, 1)};
    forall h: Handle
      ensures (b.Held(h) + extra'[h] > 0 ==> b.Known(h)) && (b.Known(h) ==> b.Refs(h) == b.Held(h) + extra'[h])
    {
      assert (a.Held(h) + extra[h] > 0 ==> a.Known(h)) && (a.Known(h) ==> a.Refs(h) == a.Held(h) + extra[h]);
      assert b.Held(h) == a.Held(h);
      if h.ChannelEnd? && h.channel == c {
        assert !a.Known(h);
        assert h.side == 0 || h.side == 1 ==> extra'[h] == 1;
      }
    }
    forall d: nat | d < |b.channels|
      ensures b.ChannelFine(d)
    {
      if d < c {
        ChannelUntouched(a, b, d);
      } else {
        forall side | 0 <= side < 2
          ensures b.SideFine(d, side)
        {
        }
      }
    }
    forall l: nat | l < |b.listeners|
      ensures b.ListenerFine(l, {})
    {
      assert a.ListenerFine(l, {});
      assert b.Registered(l) == a.Registered(l);
      StillOnce(a, b, l);
    }
  }

  /** A channel both of whose ends were let go. */
  lemma OpenThenDead()
    ensures Release(Release(OPEN_CHANNEL, 0), 1) == DEAD_CHANNEL
  {
    assert OPEN_CHANNEL.refs[0 := 0] == [0, 1] && [0, 1][1 := 0] == [0, 0];
    assert OPEN_CHANNEL.endpoints[0 := Endpoint([], true)] == [Endpoint([], true), Endpoint([], false)];
    assert Release(Release(OPEN_CHANNEL, 0), 1).endpoints == DEAD_CHANNEL.endpoints;
  }

  /** Adding a channel leaves the others alone. */
  lemma NewChannelEvolves(a: State, b: State, ch: Channel)
    requires b.channels == a.channels + [ch] && b.history == a.history + [NO_HISTORY] && |a.history| == |a.channels|
    ensures Evolves(a, b)
  {
  }

  // ---- the answers in plain terms ----

  /** Slot `id` of the task's table holds `h`. */
  predicate HoldsAt(st: State, p: nat, id: nat, h: Handle) {
    p < |st.tables| && st.tables[p].Some? && id < 64 && st.tables[p].value[id] == Some(h)
  }

  predicate HoldsSome(st: State, p: nat, id: nat) {
    p < |st.tables| && st.tables[p].Some? && id < 64 && st.tables[p].value[id].Some?
  }

  predicate HoldsChannel(st: State, p: nat, id: nat) {
    HoldsSome(st, p, id) && st.tables[p].value[id].value.ChannelEnd?
  }

  predicate HoldsListener(st: State, p: nat, id: nat) {
    HoldsSome(st, p, id) && st.tables[p].value[id].value.ListenerEnd?
  }

  predicate SomePending(st: State, p: nat, id: nat) {
    && HoldsListener(st, p, id)
    && var l := st.tables[p].value[id].value.listener; l < |st.listeners| && st.listeners[l].pending != []
  }

  predicate NoFreeSlot(st: State, p: nat) {
    p < |st.tables| && st.tables[p].Some? && forall id :: 0 <= id < 64 ==> st.tables[p].value[id].Some?
  }

  predicate IsNamed(st: State, name: string) { exists i :: 0 <= i < |st.named| && st.named[i].0 == name }

  /**
     Receive through side `side` of channel `c`: the oldest message goes, and as much of it as the
     buffer of `len` bytes takes is handed out; without a message the answer tells if one may still come.
  */
  ghost predicate RecvAnswers(a: State, b: State, c: nat, side: nat, len: nat, ret: int, data: Message) {
    && c < |a.channels| && side < 2 == |a.channels[c].endpoints| && c < |a.history| && |a.history[c].received| == 2
    && var e, taken := a.channels[c].endpoints[side], a.history[c].received[side];
       if e.queue == [] then b == a && data == [] && ret == if a.channels[c].endpoints[1 - side].closed then 0 else -11
       else
         && 0 <= ret <= len && |data| == ret && data <= e.queue[0] && (ret == len || data == e.queue[0])
         && b == a.(
              channels := a.channels[c := a.channels[c].(endpoints := a.channels[c].endpoints[side := Endpoint(e.queue[1..], e.closed)])],
              history := a.history[c := a.history[c].(received := a.history[c].received[side := taken + [e.queue[0]]])])
  }

  /** Send through side `side` of channel `c`: refused by a closed or full other side, else the message is its newest. */
  ghost predicate SendAnswers(a: State, b: State, c: nat, side: nat, msg: Message, ret: int) {
    && c < |a.channels| && side < 2 == |a.channels[c].endpoints| && c < |a.history| && |a.history[c].sent| == 2
    && var e, sent := a.channels[c].endpoints[1 - side], a.history[c].sent[1 - side];
       if e.closed then b == a && ret == -32
       else if |e.queue| >= 4096 then b == a && ret == -11
       else
         && ret == |msg|
         && b == a.(
              channels := a.channels[c := a.channels[c].(endpoints := a.channels[c].endpoints[1 - side := Endpoint(e.queue + [msg], e.closed)])],
              history := a.history[c := a.history[c].(sent := a.history[c].sent[1 - side := sent + [msg]])])
  }

  // ---- what the calls return ----

  function HandleAt(st: State, p: nat, handleId: nat): Option<Handle> {
    if st.Live(p) && handleId < MAX_HANDLES then st.tables[p].value[handleId] else None
  }

  predicate IsFull(t: HandleTable) { forall j :: 0 <= j < MAX_HANDLES ==> t[j].Some? }

  /** The order in which send refuses; its own side is open because the caller holds it. */
  function SendResult(st: State, p: nat, handleId: nat, msg: Message): int {
    if |msg| > MAX_MSG_SIZE then IPC_EMSGSIZE
    else
      match HandleAt(st, p, handleId)
      case Some(ChannelEnd(c, side)) =>
        if side < 2 && EndpointOf(st, c, 1 - side).closed then IPC_EPIPE
        else if side < 2 && |EndpointOf(st, c, 1 - side).queue| >= QUEUE_DEPTH then IPC_EAGAIN
        else |msg|
      case _ => IPC_EBADF
  }

  /** Zero means end of file only for an empty queue; a message may be empty or the buffer may be. */
  function RecvResult(st: State, p: nat, handleId: nat, len: nat): int {
    match HandleAt(st, p, handleId)
    case Some(ChannelEnd(c, side)) =>
      var e := EndpointOf(st, c, side);
      if e.queue != [] then (if len < |e.queue[0]| then len else |e.queue[0]|)
      else if side < 2 && EndpointOf(st, c, 1 - side).closed then IPC_OK
      else IPC_EAGAIN
    case _ => IPC_EBADF
  }

  predicate RecvTakes(st: State, p: nat, handleId: nat) {
    match HandleAt(st, p, handleId)
    case Some(ChannelEnd(c, side)) => EndpointOf(st, c, side).queue != []
    case _ => false
  }

  /** One message more at the end of queue and history of `side`; all else is the same. */
  ghost predicate Sent(a: State, b: State, c: nat, side: nat, msg: Message) {
    && OnlySide(a, b, c, side)
    && EndpointOf(b, c, side) == Endpoint(EndpointOf(a, c, side).queue + [msg], EndpointOf(a, c, side).closed)
    && SentTo(b, c, side) == SentTo(a, c, side) + [msg]
    && ReceivedAt(b, c, side) == ReceivedAt(a, c, side)
  }

  /** The first message of the queue of `side` was taken; all else is the same. */
  ghost predicate Received(a: State, b: State, c: nat, side: nat) {
    && OnlySide(a, b, c, side) && EndpointOf(a, c, side).queue != []
    && EndpointOf(b, c, side) == Endpoint(EndpointOf(a, c, side).queue[1..], EndpointOf(a, c, side).closed)
    && SentTo(b, c, side) == SentTo(a, c, side)
    && ReceivedAt(b, c, side) == ReceivedAt(a, c, side) + [EndpointOf(a, c, side).queue[0]]
  }

  /** The message went to the other side of the handle's channel. */
  ghost predicate SentThrough(a: State, b: State, h: Option<Handle>, msg: Message) {
    && h.Some? && h.value.ChannelEnd? && h.value.side < 2
    && Sent(a, b, h.value.channel, 1 - h.value.side, msg)
  }

  /** The oldest message of the handle's own side was taken, and its first `n` bytes were handed out. */
  ghost predicate ReceivedThrough(a: State, b: State, h: Option<Handle>, data: Message, n: int) {
    && h.Some? && h.value.ChannelEnd? && h.value.side < 2
    && Received(a, b, h.value.channel, h.value.side)
    && var first := EndpointOf(a, h.value.channel, h.value.side).queue[0];
       0 <= n <= |first| && data == first[..n]
  }

  /** Nothing but one side's endpoint and history differ. */
  ghost predicate OnlySide(a: State, b: State, c: nat, side: nat) {
    && OnlyChannel(a, b, c) && side < 2
    && b.channels[c].refs == a.channels[c].refs && |b.channels[c].endpoints| == |a.channels[c].endpoints| == 2
    && EndpointOf(b, c, 1 - side) == EndpointOf(a, c, 1 - side)
    && SentTo(b, c, 1 - side) == SentTo(a, c, 1 - side) && ReceivedAt(b, c, 1 - side) == ReceivedAt(a, c, 1 - side)
  }

  /** The handle is known and counted; if it is a channel end, its side is open. */
  ghost predicate InGoodOrder(st: State, h: Handle) {
    && st.Known(h) && InTables(st.tables, h) > 0 && st.Refs(h) > 0
    && (h.ListenerEnd? || st.ChannelFine(h.channel))
    && (h.ListenerEnd? || (st.SideFine(h.channel, h.side) && st.SideFine(h.channel, 1 - h.side)))
    && (h.ListenerEnd? || !st.channels[h.channel].endpoints[h.side].closed)
  }

  /** Whatever is in a live table is in good order. */
  lemma HeldHandle(st: State, p: nat, handleId: nat)
    requires st.Inv(NONE, {}) && HandleAt(st, p, handleId).Some?
    ensures InGoodOrder(st, HandleAt(st, p, handleId).value) && InTables(st.tables, HandleAt(st, p, handleId).value) > 0
  {
    var h := HandleAt(st, p, handleId).value;
    TablesUpdate(st.tables, p, None, h);
    assert Some(h) in st.tables[p].value;
    assert multiset(st.tables[p].value)[Some(h)] > 0;
    assert st.Held(h) > 0;
    assert st.Known(h) && st.Refs(h) == st.Held(h) + NONE[h];
    if h.ChannelEnd? {
      assert st.ChannelFine(h.channel);
    }
  }

  /** Work on one side that keeps the counts keeps the invariant. */
  lemma OneSide(a: State, b: State, c: nat, side: nat)
    requires a.Inv(NONE, {}) && OnlySide(a, b, c, side) && a.ChannelFine(c)
    requires |b.history[c].sent| == 2 == |b.history[c].received| && b.SideFine(c, side)
    requires InTables(a.tables, ChannelEnd(c, 1 - side)) > 0 || EndpointOf(a, c, side).queue != []
    ensures b.Inv(NONE, {})
  {
    forall s | 0 <= s < 2
      ensures b.SideFine(c, s)
    {
      assert a.SideFine(c, s);
      assert s == side || s == 1 - side;
    }
    forall s: nat | s < 2
      ensures b.channels[c].refs[s] == a.Held(ChannelEnd(c, s)) + NONE[ChannelEnd(c, s)]
    {
      assert a.Known(ChannelEnd(c, s)) && a.Refs(ChannelEnd(c, s)) == a.channels[c].refs[s];
    }
    forall l: nat, i: nat | l < |a.listeners| && i < |a.listeners[l].pending| && IsEndOf(a.listeners[l].pending[i], c)
      ensures a.listeners[l].pending[i].side < 2 && b.channels[c].refs[a.listeners[l].pending[i].side] == 1
        && b.Quiet(a.listeners[l].pending[i])
    {
      assert a.ListenerFine(l, {}) && a.PendingOnce(l, i);
      if InTables(a.tables, ChannelEnd(c, 1 - side)) > 0 {
        PendingElsewhere(a, c, 1 - side, NONE, {}, l, i);
      }
    }
    OneChannel(a, b, c, NONE, NONE, {});
  }

  lemma SendKeeps(a: State, b: State, c: nat, side: nat, msg: Message)
    requires a.Inv(NONE, {}) && c < |a.channels| && side < 2 && a.ChannelFine(c) && |msg| <= MAX_MSG_SIZE
    requires !EndpointOf(a, c, side).closed && !EndpointOf(a, c, 1 - side).closed
    requires |EndpointOf(a, c, side).queue| < QUEUE_DEPTH && InTables(a.tables, ChannelEnd(c, 1 - side)) > 0
    requires c < |a.history| && |a.history[c].sent| == 2
    requires b == a.(
      channels := a.channels[c := a.channels[c].(endpoints := a.channels[c].endpoints[side :=
        a.channels[c].endpoints[side].(queue := a.channels[c].endpoints[side].queue + [msg])])],
      history := a.history[c := a.history[c].(sent := a.history[c].sent[side := a.history[c].sent[side] + [msg]])])
    ensures b.Inv(NONE, {}) && Sent(a, b, c, side, msg) && Evolves(a, b)
  {
    assert a.SideFine(c, side);
    assert b.SideFine(c, side) by {
      assert a.history[c].sent[side] + [msg] == a.history[c].received[side] + (a.channels[c].endpoints[side].queue + [msg]);
    }
    OneSide(a, b, c, side);
    forall d: nat, s: nat | d < |a.channels| && s < 2
      ensures SideEvolves(a, b, d, s)
    {
      assert d != c || s == side || s == 1 - side;
    }
  }

  lemma RecvKeeps(a: State, b: State, c: nat, side: nat)
    requires a.Inv(NONE, {}) && c < |a.channels| && side < 2 && a.ChannelFine(c)
    requires EndpointOf(a, c, side).queue != [] && c < |a.history| && |a.history[c].received| == 2
    requires b == a.(
      channels := a.channels[c := a.channels[c].(endpoints := a.channels[c].endpoints[side :=
        a.channels[c].endpoints[side].(queue := a.channels[c].endpoints[side].queue[1..])])],
      history := a.history[c := a.history[c].(received := a.history[c].received[side :=
        a.history[c].received[side] + [a.channels[c].endpoints[side].queue[0]]])])
    ensures b.Inv(NONE, {}) && Received(a, b, c, side) && Evolves(a, b)
  {
    assert a.SideFine(c, side);
    var q := a.channels[c].endpoints[side].queue;
    assert b.SideFine(c, side) by {
      assert q == [q[0]] + q[1..];
      assert a.history[c].received[side] + q == (a.history[c].received[side] + [q[0]]) + q[1..];
    }
    OneSide(a, b, c, side);
    forall d: nat, s: nat | d < |a.channels| && s < 2
      ensures SideEvolves(a, b, d, s)
    {
      assert d != c || s == side || s == 1 - side;
      assert IsSuffix(q[1..], q);
    }
  }

  lemma SameChannelsEvolve(a: State, b: State)
    requires b.channels == a.channels && b.history == a.history
    ensures Evolves(a, b)
  {
  }

  // ---- names ----

  /** The position of the entry with this name, or the length. */
  function NameIndex(named: seq<(string, nat)>, name: string): (i: nat)
    ensures i <= |named| && (i < |named| ==> named[i].0 == name)
    ensures forall j :: 0 <= j < i ==> named[j].0 != name
  {
    if named == [] || named[0].0 == name then 0 else NameIndex(named[1..], name) + 1
  }

  predicate HasName(named: seq<(string, nat)>, name: string) { NameIndex(named, name) < |named| }

  function ListenerNamed(named: seq<(string, nat)>, name: string): nat {
    if HasName(named, name) then named[NameIndex(named, name)].1 else 0
  }

  function UnregisterByName(named: seq<(string, nat)>, name: string): seq<(string, nat)> {
    if HasName(named, name) then SwapRemove(named, NameIndex(named, name)) else named
  }

  /** Taking back the newest entry restores the registry, order included. */
  lemma NewestByName(named: seq<(string, nat)>, name: string, l: nat)
    requires !HasName(named, name)
    ensures UnregisterByName(named + [(name, l)], name) == named
  {
    var more := named + [(name, l)];
    var i := NameIndex(more, name);
    assert forall j :: 0 <= j < |named| ==> more[j] == named[j] && named[j].0 != name;
    assert more[|named|].0 == name;
    assert i == |named|;
    assert SwapRemove(more, i) == named;
  }

  // ---- what bind, connect and accept mean ----

  function WithHandle(st: State, p: nat, slot: nat, h: Handle): seq<Option<HandleTable>> {
    if st.Live(p) && slot < MAX_HANDLES then st.tables[p := Some(st.tables[p].value[slot := Some(h)])] else st.tables
  }

  function Bound(st: State, p: nat, slot: nat, name: string): State {
    st.(tables := WithHandle(st, p, slot, ListenerEnd(|st.listeners|)),
        listeners := st.listeners + [Listener(1, [])],
        named := st.named + [(name, |st.listeners|)])
  }

  function Connected(st: State, p: nat, slot: nat, l: nat): State {
    if l >= |st.listeners| then st
    else
      st.(tables := WithHandle(st, p, slot, ChannelEnd(|st.channels|, 0)),
          channels := st.channels + [OPEN_CHANNEL],
          history := st.history + [NO_HISTORY],
          listeners := st.listeners[l := st.listeners[l].(pending := st.listeners[l].pending + [ChannelEnd(|st.channels|, 1)])])
  }

  function Accepted(st: State, p: nat, slot: nat, l: nat): State {
    if l >= |st.listeners| || st.listeners[l].pending == [] then st
    else
      st.(tables := WithHandle(st, p, slot, st.listeners[l].pending[0]),
          listeners := st.listeners[l := st.listeners[l].(pending := st.listeners[l].pending[1..])])
  }

  /** The task holds the new listener, which is registered last. */
  lemma BindOutright(st: State, p: nat, slot: nat, name: string)
    requires st.Live(p) && slot < 64
    ensures var st' := Bound(st, p, slot, name); var l := |st.listeners|;
      && HoldsAt(st', p, slot, ListenerEnd(l)) && st' == st.(tables := st'.tables, listeners := st'.listeners, named := st'.named)
      && st'.listeners == st.listeners + [Listener(1, [])] && st'.named == st.named + [(name, l)]
      && OnlySlot(st, st', p, slot)
  {
  }

  /** The client holds side 0 of a new channel with nothing queued, and side 1 is the last to be accepted under that name. */
  lemma ConnectOutright(st: State, p: nat, slot: nat, name: string, i: nat)
    requires st.Inv(NONE, {}) && st.Live(p) && slot < 64 && i < |st.named| && st.named[i].0 == name
    ensures var st' := Connected(st, p, slot, ListenerNamed(st.named, name)); var l, c := st.named[i].1, |st.channels|;
      && HoldsAt(st', p, slot, ChannelEnd(c, 0)) && OnlySlot(st, st', p, slot) && st'.named == st.named
      && st'.listeners == st.listeners[l := Listener(st.listeners[l].refs, st.listeners[l].pending + [ChannelEnd(c, 1)])]
      && st'.channels == st.channels + [Channel([1, 1], [Endpoint([], false), Endpoint([], false)])]
  {
    RegistryAgrees(st, st.named[i].1);
    assert NameIndex(st.named, name) == i;
  }

  /** The accepting task holds the connection that waited longest. */
  lemma AcceptOutright(st: State, p: nat, slot: nat, l: nat)
    requires st.Live(p) && slot < 64 && l < |st.listeners| && st.listeners[l].pending != []
    ensures var st' := Accepted(st, p, slot, l); var waiting := st.listeners[l].pending;
      && HoldsAt(st', p, slot, waiting[0]) && OnlySlot(st, st', p, slot)
      && st' == st.(tables := st'.tables, listeners := st.listeners[l := Listener(st.listeners[l].refs, waiting[1..])])
  {
  }

  /** At most one slot of one task's table differs. */
  predicate OnlySlot(a: State, b: State, p: nat, slot: nat) {
    && |b.tables| == |a.tables|
    && (forall q :: 0 <= q < |a.tables| && q != p ==> b.tables[q] == a.tables[q])
    && (p < |a.tables| && a.tables[p].Some? ==> b.tables[p].Some?)
    && (p < |a.tables| && a.tables[p].Some? ==>
          forall id :: 0 <= id < 64 && id != slot ==> b.tables[p].value[id] == a.tables[p].value[id])
  }

  /** One holder of a channel end lets go: its count goes down by one, and at zero that side is closed and emptied. */
  lemma CloseOutright(st: State, c: nat, side: nat)
    requires c < |st.channels| && side < 2 == |st.channels[c].refs| == |st.channels[c].endpoints| && st.channels[c].refs[side] > 0
    ensures var st' := CloseRef(st, ChannelEnd(c, side)); var ch := st.channels[c];
      && st' == st.(channels := st'.channels) && |st'.channels| == |st.channels|
      && (forall d :: 0 <= d < |st.channels| && d != c ==> st'.channels[d] == st.channels[d])
      && st'.channels[c].refs == ch.refs[side := ch.refs[side] - 1]
      && st'.channels[c].endpoints == if ch.refs[side] == 1 then ch.endpoints[side := Endpoint([], true)] else ch.endpoints
  {
  }

  /** One holder of a listener lets go; the last one also unregisters it and lets go of one end for every pending entry. */
  lemma CloseListenerOutright(st: State, l: nat, i: nat, c: nat, side: nat)
    requires st.Inv(NONE + multiset{ListenerEnd(l)}, {}) && l < |st.listeners| && i < |st.named| && st.named[i].1 == l
    requires c < |st.channels| && side < 2
    ensures var st' := CloseRef(st, ListenerEnd(l)); var was := st.listeners[l];
      if was.refs > 1 then st' == st.(listeners := st.listeners[l := Listener(was.refs - 1, was.pending)])
      else
        && st' == st.(listeners := st.listeners[l := Listener(0, [])], named := st'.named, channels := st'.channels)
        && LastFills(st.named, st'.named, i) && |st'.channels| == |st.channels|
        && |st'.channels[c].refs| == 2 == |st.channels[c].refs|
        && st'.channels[c].refs[side] + multiset(was.pending)[ChannelEnd(c, side)] == st.channels[c].refs[side]
  {
    var st', was := CloseRef(st, ListenerEnd(l)), st.listeners[l];
    assert st.Registered(l) && st.ListenerFine(l, {});
    if was.refs == 1 {
      UnregisterRemoves(st, st', l);
      var h, extra := ChannelEnd(c, side), NONE + multiset{ListenerEnd(l)};
      assert st.ChannelFine(c) && st.Known(h) && st.Refs(h) == st.Held(h) + extra[h];
      PendingUpdate(st.listeners, l, Listener(0, []), h);
      ReleaseAllCounts(st.channels, was.pending, c, side);
    }
  }

  // ---- why bind, connect and accept keep the invariant ----

  lemma ListenerAdded(a: State, b: State)
    requires a.Inv(NONE, {}) && b == a.(listeners := a.listeners + [Listener(1, [])])
    ensures b.Inv(NONE + multiset{ListenerEnd(|a.listeners|)}, {|a.listeners|})
  {
    var l := |a.listeners|;
    var extra := NONE + multiset{ListenerEnd(l)};
    forall h: Handle
      ensures (b.Held(h) + extra[h] > 0 ==> b.Known(h)) && (b.Known(h) ==> b.Refs(h) == b.Held(h) + extra[h])
    {
      PendingAppend(a.listeners, Listener(1, []), h);
      assert (a.Held(h) + NONE[h] > 0 ==> a.Known(h)) && (a.Known(h) ==> a.Refs(h) == a.Held(h) + NONE[h]);
    }
    forall c: nat | c < |b.channels|
      ensures b.ChannelFine(c)
    {
      ChannelUntouched(a, b, c);
    }
    forall k: nat | k < |b.listeners|
      ensures b.ListenerFine(k, {l})
    {
      assert b.Registered(k) == a.Registered(k);
      if k < l {
        assert a.ListenerFine(k, {});
        StillOnce(a, b, k);
      } else {
        assert !a.Registered(l);
      }
    }
  }

  lemma RegisterKeeps(a: State, b: State, l: nat, name: string, extra: multiset<Handle>)
    requires a.Inv(extra, {l}) && l < |a.listeners| && a.listeners[l].refs > 0 && !HasName(a.named, name)
    requires b == a.(named := a.named + [(name, l)])
    ensures b.Inv(extra, {})
  {
    assert a.ListenerFine(l, {l});
    assert b.named[|a.named|].1 == l;
    forall k: nat | k != l
      ensures b.Registered(k) == a.Registered(k)
    {
      if a.Registered(k) {
        var i :| 0 <= i < |a.named| && a.named[i].1 == k;
        assert b.named[i].1 == k;
      }
    }
    assert b.RegistryFine() by {
      assert forall i :: 0 <= i < |a.named| ==> a.named[i].0 != name && a.named[i].1 != l;
    }
    PendingMoves(a, b, l);
    forall h: Handle
      ensures Balanced(a, b, l, extra, extra, h)
    {
    }
    StillOnce(a, b, l);
    OneListener(a, b, l, extra, extra, {l}, {});
  }

  /** A listener that was never registered and is not held is like any dead one. */
  lemma LooseIsDead(st: State, l: nat)
    requires st.Inv(NONE, {l}) && l < |st.listeners| && st.listeners[l].refs == 0
    ensures st.Inv(NONE, {})
  {
    forall k: nat | k < |st.listeners|
      ensures st.ListenerFine(k, {})
    {
      assert st.ListenerFine(k, {l});
    }
  }

  lemma PendKeeps(a: State, b: State, l: nat, h: Handle, extra: multiset<Handle>, pending: seq<Handle>)
    requires a.Inv(extra + multiset{h}, {}) && l < |a.listeners| && a.listeners[l].refs > 0 && h.ChannelEnd?
    requires a.Known(h) && a.Refs(h) == 1 && a.Quiet(h)
    requires pending == a.listeners[l].pending + [h]
    requires b == a.(listeners := a.listeners[l := a.listeners[l].(pending := pending)])
    ensures b.Inv(extra, {})
  {
    assert a.ListenerFine(l, {});
    assert forall k: nat :: b.Registered(k) == a.Registered(k);
    PendingMoves(a, b, l);
    assert multiset(pending) == multiset(a.listeners[l].pending) + multiset{h};
    StillOnce(a, b, l);
    OneListener(a, b, l, extra + multiset{h}, extra, {}, {});
  }

  lemma UnpendKeeps(a: State, b: State, l: nat, extra: multiset<Handle>)
    requires a.Inv(extra, {}) && l < |a.listeners| && a.listeners[l].pending != []
    requires b == a.(listeners := a.listeners[l := a.listeners[l].(pending := a.listeners[l].pending[1..])])
    ensures b.Inv(extra + multiset{a.listeners[l].pending[0]}, {})
  {
    var pending := a.listeners[l].pending;
    assert a.ListenerFine(l, {});
    assert forall k: nat :: b.Registered(k) == a.Registered(k);
    PendingMoves(a, b, l);
    assert pending == [pending[0]] + pending[1..];
    assert multiset(pending) == multiset(pending[1..]) + multiset{pending[0]};
    StillOnce(a, b, l);
    OneListener(a, b, l, extra, extra + multiset{pending[0]}, {}, {});
  }

  // ---- whole tables ----

  /** In the middle of cloning a table: the handles in `slots` are duplicated and in flight. */
  ghost predicate Cloning(a: State, b: State, slots: seq<Option<Handle>>) {
    && b == a.(channels := b.channels, listeners := b.listeners)
    && OnlyCloses(a, b)
    && b.Inv(HandlesIn(slots), {})
  }

  /** The handles in some slots, as a multiset. */
  ghost function HandlesIn(slots: seq<Option<Handle>>): multiset<Handle> {
    if slots == [] then multiset{}
    else HandlesIn(slots[..|slots| - 1]) + OneHandle(slots[|slots| - 1])
  }

  ghost function OneHandle(slot: Option<Handle>): multiset<Handle> {
    if slot.Some? then multiset{slot.value} else multiset{}
  }

  ghost function TableHandles(t: HandleTable): multiset<Handle> { HandlesIn(t) }

  lemma HandlesAppend(slots: seq<Option<Handle>>, slot: Option<Handle>)
    ensures HandlesIn(slots + [slot]) == HandlesIn(slots) + OneHandle(slot)
  {
    assert (slots + [slot])[..|slots|] == slots;
  }

  lemma {:induction false} HandlesCounted(slots: seq<Option<Handle>>, h: Handle)
    ensures HandlesIn(slots)[h] == multiset(slots)[Some(h)]
  {
    if slots != [] {
      HandlesCounted(slots[..|slots| - 1], h);
      assert slots == slots[..|slots| - 1] + [slots[|slots| - 1]];
    }
  }

  lemma HeldInTable(st: State, p: nat, idx: nat)
    requires st.Live(p) && idx < MAX_HANDLES && st.tables[p].value[idx].Some?
    ensures InTables(st.tables, st.tables[p].value[idx].value) > 0
  {
    var h := st.tables[p].value[idx].value;
    TablesUpdate(st.tables, p, None, h);
    assert Some(h) in st.tables[p].value;
    assert multiset(st.tables[p].value)[Some(h)] > 0;
  }

  /** Storing the cloned table for a task that had none. */
  lemma TableAdded(a: State, padded: State, b: State, child: nat, copy: HandleTable, n: nat)
    requires a.Inv(TableHandles(copy), {}) && !a.Live(child) && child < |padded.tables|
    requires padded == a.(tables := a.tables + seq(n, _ => None))
    requires b == padded.(tables := padded.tables[child := Some(copy)])
    ensures b.Inv(NONE, {})
  {
    forall h: Handle
      ensures b.Held(h) + NONE[h] == a.Held(h) + TableHandles(copy)[h]
    {
      TablesPad(a.tables, n, h);
      TablesUpdate(padded.tables, child, Some(copy), h);
      HandlesCounted(copy, h);
    }
    HandlesMoved(a, b, TableHandles(copy), NONE, {});
  }

  /** Dropping an empty table. */
  lemma EmptyTableDropped(a: State, b: State, p: nat)
    requires a.Inv(NONE, {}) && a.Live(p) && forall j :: 0 <= j < MAX_HANDLES ==> a.tables[p].value[j].None?
    requires b == a.(tables := a.tables[p := None])
    ensures b.Inv(NONE, {})
  {
    forall h: Handle
      ensures b.Held(h) + NONE[h] == a.Held(h) + NONE[h]
    {
      TablesUpdate(a.tables, p, None, h);
      assert Some(h) !in a.tables[p].value;
      assert multiset(a.tables[p].value)[Some(h)] == 0;
    }
    HandlesMoved(a, b, NONE, NONE, {});
  }

  /** Every handle of a table let go, in order. */
  function ClosedAll(st: State, slots: seq<Option<Handle>>): State
    decreases |slots|
  {
    if slots == [] then st
    else ClosedAll(if slots[0].Some? then CloseRef(st, slots[0].value) else st, slots[1..])
  }

  // ---- fork and exit cancel out ----

  lemma {:induction false} NoListenerPending(ls: seq<Listener>, h: Handle)
    requires h.ListenerEnd?
    requires forall l, i :: 0 <= l < |ls| && 0 <= i < |ls[l].pending| ==> ls[l].pending[i].ChannelEnd?
    ensures InPending(ls, h) == 0
  {
    if ls != [] {
      assert h !in ls[0].pending;
      assert multiset(ls[0].pending)[h] == 0;
      NoListenerPending(ls[1..], h);
    }
  }

  /** Listeners are held by table slots only. */
  lemma ListenerCount(st: State, l: nat)
    requires st.Inv(NONE, {}) && l < |st.listeners|
    ensures st.listeners[l].refs == InTables(st.tables, ListenerEnd(l))
  {
    forall k, i | 0 <= k < |st.listeners| && 0 <= i < |st.listeners[k].pending|
      ensures st.listeners[k].pending[i].ChannelEnd?
    {
      assert st.ListenerFine(k, {});
    }
    NoListenerPending(st.listeners, ListenerEnd(l));
    assert st.Known(ListenerEnd(l)) && st.Refs(ListenerEnd(l)) == st.Held(ListenerEnd(l)) + NONE[ListenerEnd(l)];
  }

  lemma SameChannel(a: State, b: State, c: nat)
    requires a.Inv(NONE, {}) && b.Inv(NONE, {}) && SidesOnlyClose(a, b) && c < |a.channels|
    requires forall h: Handle :: b.Held(h) == a.Held(h)
    ensures b.channels[c] == a.channels[c]
  {
    assert a.ChannelFine(c) && b.ChannelFine(c);
    forall side: nat | side < 2
      ensures b.channels[c].refs[side] == a.channels[c].refs[side] && b.channels[c].endpoints[side] == a.channels[c].endpoints[side]
    {
      var h := ChannelEnd(c, side);
      assert a.SideFine(c, side) && b.SideFine(c, side);
      assert b.Refs(h) == b.Held(h) + NONE[h] && a.Refs(h) == a.Held(h) + NONE[h];
      assert EndpointOf(b, c, side) == EndpointOf(a, c, side) || EndpointOf(b, c, side) == Endpoint([], true);
    }
    assert b.channels[c].refs == a.channels[c].refs;
    assert b.channels[c].endpoints == a.channels[c].endpoints;
  }

  /** If as many table slots hold each handle as before and only references changed meanwhile, everything is as before. */
  lemma NothingDied(a: State, b: State)
    requires a.Inv(NONE, {}) && b.Inv(NONE, {}) && OnlyCloses(a, b)
    requires forall h: Handle :: InTables(b.tables, h) == InTables(a.tables, h)
    ensures b == a.(tables := b.tables)
  {
    forall l: nat | l < |a.listeners|
      ensures b.listeners[l] == a.listeners[l]
    {
      ListenerCount(a, l);
      ListenerCount(b, l);
      assert ListenerOnlyDies(a, b, l) && a.ListenerFine(l, {}) && b.ListenerFine(l, {});
    }
    assert b.listeners == a.listeners && b.named == a.named;
    forall c: nat | c < |a.channels|
      ensures b.channels[c] == a.channels[c]
    {
      SameChannel(a, b, c);
    }
    assert b.channels == a.channels;
  }

  /**
     A fork whose child exits leaves no trace: `a` before the fork, `b` after it, `c` after the exit.
     All counts, queues, pending connections and the registry, in its order, are restored.
   */
  lemma IpcExitUndoesFork(a: State, b: State, c: State, child: nat)
    requires a.Inv(NONE, {}) && c.Inv(NONE, {}) && !a.Live(child) && |b.tables| == |c.tables|
    requires OnlyCloses(a, b) && OnlyCloses(b, c) && !c.Live(child)
    requires forall q: nat :: q != child ==> b.Live(q) == a.Live(q) && (a.Live(q) ==> b.tables[q] == a.tables[q])
    requires forall q: nat :: q < |c.tables| && q != child ==> c.tables[q] == b.tables[q]
    requires |a.tables| <= |b.tables|
    ensures c == a.(tables := c.tables)
    ensures forall q: nat :: c.Live(q) == a.Live(q) && (a.Live(q) ==> c.tables[q] == a.tables[q])
  {
    forall q: nat
      ensures c.Live(q) == a.Live(q) && (a.Live(q) ==> c.tables[q] == a.tables[q])
    {
      assert b.Live(q) == a.Live(q) || q == child;
    }
    var n: nat := |c.tables| - |a.tables|;
    assert c.tables == a.tables + seq(n, _ => None) by {
      forall q: nat | q < |c.tables|
        ensures c.tables[q] == (a.tables + seq(n, _ => None))[q]
      {
        assert c.Live(q) == a.Live(q);
      }
    }
    forall h: Handle
      ensures InTables(c.tables, h) == InTables(a.tables, h)
    {
      TablesPad(a.tables, n, h);
    }
    OnlyClosesTransitive(a, b, c);
    NothingDied(a, c);
  }

  // ---- end of file ----

  /** The peer is gone and nothing is queued. */
  predicate EndOfFile(st: State, c: nat, side: nat) {
    side < 2 && EndpointOf(st, c, 1 - side).closed && EndpointOf(st, c, side).queue == []
  }

  /** While the receiving side is open: sent is received then queued, in order, at most 4096 of them. */
  lemma Conserved(st: State, c: nat, side: nat)
    requires st.Inv(NONE, {}) && c < |st.channels| && side < 2 && !EndpointOf(st, c, side).closed
    ensures SentTo(st, c, side) == ReceivedAt(st, c, side) + EndpointOf(st, c, side).queue
    ensures |EndpointOf(st, c, side).queue| <= QUEUE_DEPTH
    ensures EndOfFile(st, c, side) ==> ReceivedAt(st, c, side) == SentTo(st, c, side)
  {
    assert st.ChannelFine(c) && st.SideFine(c, side);
  }

  /** Receive answers 0 at the end of file, and also for a message or a buffer without bytes; never else. */
  lemma ZeroMeans(st: State, p: nat, id: nat, len: nat, c: nat, side: nat)
    requires st.Inv(NONE, {}) && HandleAt(st, p, id) == Some(ChannelEnd(c, side))
    ensures RecvResult(st, p, id, len) == 0 <==>
      EndOfFile(st, c, side) || (EndpointOf(st, c, side).queue != [] && (len == 0 || EndpointOf(st, c, side).queue[0] == []))
  {
    HeldHandle(st, p, id);
  }

  /**
     A history of the system: each state satisfies the invariant and evolves from the one before, as
     every system call, fork and exit ensures of the states before and after it.
   */
  ghost predicate IsHistory(run: seq<State>) {
    && (forall i :: 0 <= i < |run| ==> run[i].Inv(NONE, {}))
    && (forall i :: 0 < i < |run| ==> Evolves(run[i - 1], run[i]))
  }

  lemma {:induction false} RunEvolves(run: seq<State>, i: nat, j: nat)
    requires IsHistory(run) && i <= j < |run|
    ensures Evolves(run[i], run[j])
    decreases j - i
  {
    if i < j {
      RunEvolves(run, i, j - 1);
      EvolvesTransitive(run[i], run[j - 1], run[j]);
    } else {
      SameChannelsEvolve(run[i], run[j]);
    }
  }

  /** Once at the end of file, for ever: every message was taken, and every later receive answers 0. */
  lemma EofIsFinal(run: seq<State>, i: nat, j: nat, c: nat, side: nat, p: nat, id: nat, len: nat)
    requires IsHistory(run) && i <= j < |run| && c < |run[i].channels| && EndOfFile(run[i], c, side)
    requires HandleAt(run[j], p, id) == Some(ChannelEnd(c, side))
    ensures EndOfFile(run[j], c, side) && RecvResult(run[j], p, id, len) == IPC_OK
    ensures ReceivedAt(run[j], c, side) == SentTo(run[j], c, side) == SentTo(run[i], c, side)
  {
    RunEvolves(run, i, j);
    assert SideEvolves(run[i], run[j], c, side) && SideEvolves(run[i], run[j], c, 1 - side);
    HeldHandle(run[j], p, id);
    Conserved(run[j], c, side);
  }

  /** Nothing sent is ever lost or reordered: what had been received stays the beginning of what is sent later. */
  lemma FifoForEver(run: seq<State>, i: nat, j: nat, c: nat, side: nat)
    requires IsHistory(run) && i <= j < |run| && c < |run[i].channels| && side < 2
    requires !EndpointOf(run[j], c, side).closed
    ensures SentTo(run[i], c, side) <= ReceivedAt(run[j], c, side) + EndpointOf(run[j], c, side).queue
    ensures ReceivedAt(run[i], c, side) <= ReceivedAt(run[j], c, side)
  {
    RunEvolves(run, i, j);
    assert SideEvolves(run[i], run[j], c, side);
    Conserved(run[j], c, side);
  }

  // ---- listeners and their clients ----

  /** Letting go of handles takes each side's count down by its share; at zero the side is closed. */
  lemma {:induction false} ReleaseAllCounts(chs: seq<Channel>, hs: seq<Handle>, c: nat, side: nat)
    requires c < |chs| && side < 2 == |chs[c].refs| == |chs[c].endpoints|
    requires chs[c].refs[side] >= multiset(hs)[ChannelEnd(c, side)]
    ensures |ReleaseAll(chs, hs)| == |chs|
    ensures |ReleaseAll(chs, hs)[c].refs| == 2 == |ReleaseAll(chs, hs)[c].endpoints|
    ensures ReleaseAll(chs, hs)[c].refs[side] == chs[c].refs[side] - multiset(hs)[ChannelEnd(c, side)]
    ensures 0 < multiset(hs)[ChannelEnd(c, side)] == chs[c].refs[side] ==> ReleaseAll(chs, hs)[c].endpoints[side] == Endpoint([], true)
    decreases |hs|
  {
    if hs != [] {
      assert hs == [hs[0]] + hs[1..];
      var next := ReleaseIn(chs, hs[0]);
      ReleaseAllCounts(next, hs[1..], c, side);
      if hs[0] == ChannelEnd(c, side) && chs[c].refs[side] == 1 {
        ReleaseAllKeepsClosed(next, hs[1..], c, side);
      }
    }
  }

  lemma {:induction false} ReleaseAllKeepsClosed(chs: seq<Channel>, hs: seq<Handle>, c: nat, side: nat)
    requires c < |chs| && side < |chs[c].endpoints| && chs[c].endpoints[side] == Endpoint([], true)
    ensures c < |ReleaseAll(chs, hs)| && side < |ReleaseAll(chs, hs)[c].endpoints|
    ensures ReleaseAll(chs, hs)[c].endpoints[side] == Endpoint([], true)
    decreases |hs|
  {
    ReleaseAllCloses(chs, hs);
    assert ReleasedAt(chs, ReleaseAll(chs, hs), c, side);
  }

  /**
     The last close of a listener: its name is free again, and the client of every connection that
     was still pending gets EPIPE on send and end of file on receive.
   */
  lemma LastCloseRefusesClients(a: State, b: State, l: nat, i: nat, p: nat, id: nat, msg: Message, len: nat)
    requires a.Inv(NONE + multiset{ListenerEnd(l)}, {}) && l < |a.listeners| && a.listeners[l].refs == 1
    requires i < |a.listeners[l].pending|
    requires b == CloseRef(a, ListenerEnd(l)) && b.Inv(NONE, {})
    requires var h := a.listeners[l].pending[i]; h.ChannelEnd? && h.side < 2 && HandleAt(b, p, id) == Some(ChannelEnd(h.channel, 1 - h.side))
    ensures !b.Registered(l)
    ensures |msg| <= MAX_MSG_SIZE ==> SendResult(b, p, id, msg) == IPC_EPIPE
    ensures RecvResult(b, p, id, len) == IPC_OK
  {
    var pending := a.listeners[l].pending;
    var h := pending[i];
    assert b.ListenerFine(l, {});
    assert h in pending;
    assert multiset(pending)[h] > 0;
    var extra := NONE + multiset{ListenerEnd(l)};
    assert a.ListenerFine(l, {}) && a.PendingOnce(l, i);
    assert a.Known(h) && a.Refs(h) == a.Held(h) + extra[h];
    PendingUpdate(a.listeners, l, Listener(0, []), h);
    assert a.ChannelFine(h.channel);
    ReleaseAllCounts(a.channels, pending, h.channel, h.side);
    ReleaseAllCloses(a.channels, pending);
    assert ReleasedAt(a.channels, b.channels, h.channel, 1 - h.side);
  }

  /** Accepting once for every task and slot in `takers`, in order. */
  function AcceptedBy(st: State, l: nat, takers: seq<(nat, nat)>): State
    decreases |takers|
  {
    if takers == [] then st else AcceptedBy(Accepted(st, takers[0].0, takers[0].1, l), l, takers[1..])
  }

  lemma {:induction false} AcceptInOrder(st: State, l: nat, takers: seq<(nat, nat)>, p: nat, slot: nat)
    requires l < |st.listeners| && |takers| <= |st.listeners[l].pending| && slot < MAX_HANDLES
    requires forall t :: t in takers ==> t.1 < MAX_HANDLES && t != (p, slot)
    ensures var st' := AcceptedBy(st, l, takers);
      && st'.listeners == st.listeners[l := st.listeners[l].(pending := st.listeners[l].pending[|takers|..])]
      && HandleAt(st', p, slot) == HandleAt(st, p, slot) && forall q: nat :: st'.Live(q) == st.Live(q)
    decreases |takers|
  {
    if takers != [] {
      var next := Accepted(st, takers[0].0, takers[0].1, l);
      assert takers[0] in takers;
      assert HandleAt(next, p, slot) == HandleAt(st, p, slot);
      AcceptInOrder(next, l, takers[1..], p, slot);
      assert st.listeners[l].pending[1..][|takers| - 1..] == st.listeners[l].pending[|takers|..];
    } else {
      assert st.listeners[l].pending[0..] == st.listeners[l].pending;
    }
  }

  /**
     Connections are accepted in the order they were made: once those before it are taken, the next
     accept gets the other end of the channel that the client got, and none is pending any more.
   */
  lemma ConnectThenAccept(st: State, p: nat, slot: nat, l: nat, takers: seq<(nat, nat)>, q: nat, slot': nat)
    requires l < |st.listeners| && |takers| == |st.listeners[l].pending| && st.Live(p) && st.Live(q) && (q, slot') != (p, slot)
    requires slot < MAX_HANDLES && slot' < MAX_HANDLES
    requires forall t :: t in takers ==> t.1 < MAX_HANDLES && t != (p, slot)
    ensures var st' := Accepted(AcceptedBy(Connected(st, p, slot, l), l, takers), q, slot', l); var c := |st.channels|;
      && HandleAt(st', p, slot) == Some(ChannelEnd(c, 0)) && HandleAt(st', q, slot') == Some(ChannelEnd(c, 1))
      && st'.listeners == st.listeners[l := st.listeners[l].(pending := [])]
  {
    var connected := Connected(st, p, slot, l);
    var n, end := |takers|, ChannelEnd(|st.channels|, 1);
    assert connected.listeners[l].pending[n..] == [end];
    assert HandleAt(connected, p, slot) == Some(ChannelEnd(|st.channels|, 0));
    var last := AcceptedBy(connected, l, takers);
    AcceptInOrder(connected, l, takers, p, slot);
    assert connected.Live(q) && last.Live(q);
    assert last.listeners[l].pending == [end];
    TakeLast(last, q, slot', l, end, p, slot);
  }

  /** The accept that takes the only pending connection. */
  lemma TakeLast(st: State, q: nat, slot': nat, l: nat, end: Handle, p: nat, slot: nat)
    requires l < |st.listeners| && st.listeners[l].pending == [end] && st.Live(q) && slot' < MAX_HANDLES && (q, slot') != (p, slot)
    ensures var st' := Accepted(st, q, slot', l);
      && HandleAt(st', q, slot') == Some(end) && HandleAt(st', p, slot) == HandleAt(st, p, slot)
      && st'.listeners == st.listeners[l := st.listeners[l].(pending := [])]
  {
    assert [end][1..] == [];
  }

  /** Names are unique and a listener is registered exactly as long as a table slot holds it. */
  lemma RegistryAgrees(st: State, l: nat)
    requires st.Inv(NONE, {}) && l < |st.listeners|
    ensures st.Registered(l) <==> InTables(st.tables, ListenerEnd(l)) > 0
    ensures forall name, i :: 0 <= i < |st.named| && st.named[i].0 == name ==> NameIndex(st.named, name) == i
    ensures forall i :: 0 <= i < |st.named| ==> st.listeners[st.named[i].1].refs > 0
  {
    ListenerCount(st, l);
    assert st.ListenerFine(l, {});
    forall i | 0 <= i < |st.named|
      ensures st.listeners[st.named[i].1].refs > 0 && NameIndex(st.named, st.named[i].0) == i
    {
      assert st.Registered(st.named[i].1) && st.ListenerFine(st.named[i].1, {});
      assert NameIndex(st.named, st.named[i].0) <= i;
    }
  }
}
