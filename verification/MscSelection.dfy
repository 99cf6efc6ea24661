/** The selection of a Bulk-Only mass storage interface in kernel/src/xhci/usb.rs. */
module MscSelection {
  import opened Prelude
  import opened Descriptors

  datatype MscInterface = MscInterface(configuration: u8, interface: u8, bulkIn: Endpoint, bulkOut: Endpoint)

  type Answer = Result<MscInterface, DescriptorError>

  predicate IsBot(i: Interface) { i.alternate == 0 && i.class_ == 8 && i.subclass == 6 && i.protocol == 0x50 }

  predicate IsBulk(e: Endpoint) { e.attributes == 2 && e.maxPacketSize != 0 }

  predicate IsIn(e: Endpoint) { e.address >= 128 }

  /** The interface being looked at and the bulk endpoints found under it. */
  datatype Group = Group(interface: Interface, bulkIn: Option<Endpoint>, bulkOut: Option<Endpoint>)
  {
    predicate Counts(e: Endpoint) { IsBot(interface) && IsBulk(e) }

    predicate Taken(e: Endpoint) { if IsIn(e) then bulkIn.Some? else bulkOut.Some? }

    function With(e: Endpoint): Group { if IsIn(e) then this.(bulkIn := Some(e)) else this.(bulkOut := Some(e)) }

    predicate Complete() { IsBot(interface) && bulkIn.Some? && bulkOut.Some? }

    function Chosen(value: u8): MscInterface
      requires Complete()
    {
      MscInterface(value, interface.number, bulkIn.value, bulkOut.value)
    }
  }

  /** Closing a group: a complete one is selected, unless there is one already. */
  function Close(group: Option<Group>, selected: Option<MscInterface>, value: u8): Result<Option<MscInterface>, DescriptorError> {
    if group.Some? && group.value.Complete() then
      if selected.Some? then Err(Unsupported) else Ok(Some(group.value.Chosen(value)))
    else Ok(selected)
  }

  /** One pass over the descriptors. */
  function MscPass(p: Pieces, k: nat, group: Option<Group>, selected: Option<MscInterface>, value: u8): Answer
    requires k <= |p.items|
    decreases |p.items| - k
  {
    if k == |p.items| then
      if p.end.Some? then Err(p.end.value)
      else
        match Close(group, selected, value)
        case Err(e) => Err(e)
        case Ok(s) => if s.Some? then Ok(s.value) else Err(Unsupported)
    else
      var raw := p.items[k];
      if raw[1] == INTERFACE then
        match Close(group, selected, value)
        case Err(e) => Err(e)
        case Ok(s) =>
          if |raw| < 9 then Err(InvalidLength)
          else MscPass(p, k + 1, Some(Group(InterfaceOf(raw), None, None)), s, value)
      else if raw[1] == ENDPOINT && group.Some? then
        if |raw| < 7 then Err(InvalidLength)
        else if group.value.Counts(EndpointOf(raw)) then
          if group.value.Taken(EndpointOf(raw)) then Err(Unsupported)
          else MscPass(p, k + 1, Some(group.value.With(EndpointOf(raw))), selected, value)
        else MscPass(p, k + 1, group, selected, value)
      else MscPass(p, k + 1, group, selected, value)
  }

  method ParseMscBotInterface(data: seq<u8>) returns (r: Answer)
    ensures ParseConfiguration(data).Err? ==> r == Err(ParseConfiguration(data).error)
    ensures ParseConfiguration(data).Ok? ==>
      r == MscPass(PiecesFrom(ParseConfiguration(data).value.bytes, 9), 0, None, None, ParseConfiguration(data).value.value)
  {
    var configuration := ParseConfiguration(data);
    if configuration.Err? {
      return Err(configuration.error);
    }
    var value := configuration.value.value;
    var descriptors := new DescriptorIter(configuration.value.bytes, 9);
    ghost var goal := MscPass(descriptors.Rest(), 0, None, None, value);
    var selected := None;
    while true
      invariant descriptors.Valid() && MscPass(descriptors.Rest(), 0, None, selected, value) == goal
      decreases |descriptors.bytes| - descriptors.offset
    {
      MscSkip(descriptors.Rest(), selected, value);
      var interface := descriptors.NextInterface();
      if interface.Err? {
        return Err(interface.error);
      }
      if interface.value.None? {
        break;
      }
      var group := Group(interface.value.value, None, None);
      ghost var at := descriptors.offset;
      while true
        invariant descriptors.Valid() && descriptors.offset >= at
        invariant MscPass(descriptors.Rest(), 0, Some(group), selected, value) == goal
        decreases |descriptors.bytes| - descriptors.offset
      {
        MscWalk(descriptors.Rest(), group, selected, value);
        var endpoint := descriptors.NextEndpoint();
        if endpoint.Err? {
          return Err(endpoint.error);
        }
        if endpoint.value.None? {
          break;
        }
        if group.Counts(endpoint.value.value) {
          if group.Taken(endpoint.value.value) {
            return Err(Unsupported);
          }
          group := group.With(endpoint.value.value);
        }
      }
      if group.Complete() {
        if selected.Some? {
          return Err(Unsupported);
        }
        selected := Some(group.Chosen(value));
      }
    }
    if selected.Some? {
      return Ok(selected.value);
    }
    return Err(Unsupported);
  }

  /** Dropping the first descriptor is starting one further. */
  lemma {:induction false} MscShift(p: Pieces, k: nat, group: Option<Group>, selected: Option<MscInterface>, value: u8)
    requires k < |p.items|
    ensures MscPass(p, k + 1, group, selected, value) == MscPass(p.(items := p.items[1..]), k, group, selected, value)
    decreases |p.items| - k
  {
    var q := p.(items := p.items[1..]);
    if k + 1 < |p.items| {
      assert p.items[k + 1] == q.items[k];
      var raw := q.items[k];
      if raw[1] == INTERFACE {
        var s := Close(group, selected, value);
        if s.Ok? && |raw| >= 9 {
          MscShift(p, k + 1, Some(Group(InterfaceOf(raw), None, None)), s.value, value);
        }
      } else {
        MscShift(p, k + 1, group, selected, value);
        if raw[1] == ENDPOINT && |raw| >= 7 && group.Some? {
          MscShift(p, k + 1, Some(group.value.With(EndpointOf(raw))), selected, value);
        }
      }
    }
  }

  lemma {:induction false} MscSkip(p: Pieces, selected: Option<MscInterface>, value: u8)
    ensures var (r, rest) := NextInterfaceOf(p);
      MscPass(p, 0, None, selected, value) ==
      if r.Err? then Err(r.error)
      else if r.value.Some? then MscPass(rest, 0, Some(Group(r.value.value, None, None)), selected, value)
      else if selected.Some? then Ok(selected.value) else Err(Unsupported)
    decreases |p.items|
  {
    if p.items != [] {
      var rest := p.(items := p.items[1..]);
      if p.items[0][1] != INTERFACE {
        MscShift(p, 0, None, selected, value);
        MscSkip(rest, selected, value);
      } else if |p.items[0]| >= 9 {
        MscShift(p, 0, Some(Group(InterfaceOf(p.items[0]), None, None)), selected, value);
      }
    }
  }

  /** What the pass makes of the descriptors up to and including the next endpoint of the group. */
  lemma {:induction false} MscWalk(p: Pieces, g: Group, selected: Option<MscInterface>, value: u8)
    ensures MscPass(p, 0, Some(g), selected, value) == AfterEndpoint(NextEndpointOf(p), g, selected, value)
    decreases |p.items|
  {
    if p.items != [] {
      var rest := p.(items := p.items[1..]);
      if p.items[0][1] != INTERFACE {
        MscShift(p, 0, Some(g), selected, value);
        if p.items[0][1] != ENDPOINT {
          MscWalk(rest, g, selected, value);
        } else if |p.items[0]| >= 7 {
          MscShift(p, 0, Some(g.With(EndpointOf(p.items[0]))), selected, value);
        }
      }
    }
  }

  function AfterEndpoint(next: (Result<Option<Endpoint>, DescriptorError>, Pieces), g: Group, selected: Option<MscInterface>, value: u8): Answer {
    var (r, rest) := next;
    if r.Err? then Err(r.error)
    else if r.value.None? then
      match Close(Some(g), selected, value)
      case Err(e) => Err(e)
      case Ok(s) => MscPass(rest, 0, None, s, value)
    else if g.Counts(r.value.value) then
      if g.Taken(r.value.value) then Err(Unsupported) else MscPass(rest, 0, Some(g.With(r.value.value)), selected, value)
    else MscPass(rest, 0, Some(g), selected, value)
  }

  // ---- what is selected, stated outright ----

  /** Descriptor `i` is a bulk endpoint of Bulk-Only interface descriptor `j`, in the given direction. */
  predicate BulkMatch(items: seq<Raw>, i: nat, j: nat, isIn: bool) {
    && EndpointUnder(items, i, j)
    && var e, f := items[i], items[j];
       && f[3] == 0 && f[5] == 8 && f[6] == 6 && f[7] == 0x50
       && e[3] % 4 == 2 && PacketSize(e) != 0 && (e[2] >= 128 <==> isIn)
  }

  /** No Bulk-Only interface has two bulk endpoints of one direction. */
  ghost predicate NoRepeat(items: seq<Raw>, k: nat) {
    forall i: nat, i': nat, j: nat, isIn: bool ::
      i < k && i' < k && BulkMatch(items, i, j, isIn) && BulkMatch(items, i', j, isIn) ==> i == i'
  }

  ghost predicate HasBoth(items: seq<Raw>, k: nat, j: nat, i: nat, o: nat) {
    i < k && o < k && BulkMatch(items, i, j, true) && BulkMatch(items, o, j, false)
  }

  /** The endpoint is what its descriptor says, byte for byte. */
  predicate Describes(e: Endpoint, r: Raw) {
    |r| >= 7 && e.address == r[2] && e.attributes == r[3] % 4 && e.maxPacketSize == PacketSize(r) && e.interval == r[6]
  }

  predicate DescribesAll(m: MscInterface, value: u8, interface: Raw, bulkIn: Raw, bulkOut: Raw) {
    && |interface| >= 3 && m.configuration == value && m.interface == interface[2]
    && Describes(m.bulkIn, bulkIn) && Describes(m.bulkOut, bulkOut)
  }

  /** Interface `j` is the only one with both directions, and `m` describes it. */
  ghost predicate OnlyMsc(items: seq<Raw>, k: nat, j: nat, i: nat, o: nat, m: MscInterface, value: u8) {
    && HasBoth(items, k, j, i, o)
    && DescribesAll(m, value, items[j], items[i], items[o])
    && forall j': nat, i': nat, o': nat :: HasBoth(items, k, j', i', o') ==> j' == j
  }

  /** The selection succeeds with `m` exactly when this holds. */
  ghost predicate Selectable(p: Pieces, m: MscInterface, value: u8) {
    var n := |p.items|;
    && p.end.None? && WellFormed(p.items, n) && NoRepeat(p.items, n)
    && exists j: nat, i: nat, o: nat :: OnlyMsc(p.items, n, j, i, o, m, value)
  }

  /** What the group knows about interface `Nearest(items, k)`. */
  ghost predicate GroupState(items: seq<Raw>, k: nat, group: Option<Group>)
    requires k <= |items|
  {
    match group
    case None => UnderAt(items, k).None?
    case Some(g) =>
      && UnderAt(items, k) == Some(g.interface) && Nearest(items, k).Some?
      && var j := Nearest(items, k).value;
         && SlotState(items, k, j, true, g.bulkIn) && SlotState(items, k, j, false, g.bulkOut)
  }

  ghost predicate SlotState(items: seq<Raw>, k: nat, j: nat, isIn: bool, found: Option<Endpoint>) {
    && (found.None? ==> forall i: nat :: i < k ==> !BulkMatch(items, i, j, isIn))
    && (found.Some? ==> exists i: nat :: i < k && BulkMatch(items, i, j, isIn) && found.value == EndpointOf(items[i]))
  }

  /** The complete interfaces before the current group. */
  ghost predicate EarlierState(items: seq<Raw>, k: nat, selected: Option<MscInterface>, value: u8)
    requires k <= |items|
  {
    && (selected.None? ==> forall j: nat, i: nat, o: nat :: HasBoth(items, k, j, i, o) ==> Nearest(items, k) == Some(j))
    && (selected.Some? ==> exists j: nat, i: nat, o: nat :: Earlier(items, k, j, i, o, selected.value, value))
  }

  ghost predicate Earlier(items: seq<Raw>, k: nat, j: nat, i: nat, o: nat, m: MscInterface, value: u8)
    requires k <= |items|
  {
    && HasBoth(items, k, j, i, o) && Nearest(items, k) != Some(j)
    && m == MscInterface(value, InterfaceOf(items[j]).number, EndpointOf(items[i]), EndpointOf(items[o]))
    && forall j': nat, i': nat, o': nat :: HasBoth(items, k, j', i', o') ==> j' == j || Nearest(items, k) == Some(j')
  }

  ghost predicate MscState(items: seq<Raw>, k: nat, group: Option<Group>, selected: Option<MscInterface>, value: u8)
    requires k <= |items|
  {
    && WellFormed(items, k) && NoRepeat(items, k)
    && GroupState(items, k, group) && EarlierState(items, k, selected, value)
  }

  /**
     The selection is right: it succeeds with `m` if and only if the region tiles into well-formed
     descriptors, no Bulk-Only interface repeats a direction, and exactly one has both.
   */
  lemma MscSelectsTheOnlyInterface(p: Pieces, value: u8, m: MscInterface)
    ensures MscPass(p, 0, None, None, value) == Ok(m) <==> Selectable(p, m, value)
  {
    MscPassIff(p, 0, None, None, value, m);
  }

  lemma {:induction false} MscPassIff(p: Pieces, k: nat, group: Option<Group>, selected: Option<MscInterface>, value: u8, m: MscInterface)
    requires k <= |p.items| && MscState(p.items, k, group, selected, value)
    ensures MscPass(p, k, group, selected, value) == Ok(m) <==> Selectable(p, m, value)
    decreases |p.items| - k
  {
    var items := p.items;
    if k == |items| {
      if p.end.None? {
        CloseIff(items, k, group, selected, value, m);
      }
    } else if items[k][1] == INTERFACE {
      InterfaceStep(p, k, group, selected, value, m);
    } else {
      OtherStep(p, k, group, selected, value, m);
    }
  }

  /** After closing the group, what is selected is exactly the only complete interface so far. */
  lemma Closed(items: seq<Raw>, k: nat, group: Option<Group>, selected: Option<MscInterface>, value: u8)
    requires k <= |items| && MscState(items, k, group, selected, value)
    ensures var s := Close(group, selected, value);
      && (s.Err? ==> TwoComplete(items, k))
      && (s.Ok? && s.value.None? ==> forall j: nat, i: nat, o: nat :: !HasBoth(items, k, j, i, o))
      && (s.Ok? && s.value.Some? ==> exists j: nat, i: nat, o: nat :: OnlyMsc(items, k, j, i, o, s.value.value, value))
  {
    if group.Some? && group.value.Complete() {
      var j := Nearest(items, k).value;
      var i: nat :| i < k && BulkMatch(items, i, j, true) && group.value.bulkIn.value == EndpointOf(items[i]);
      var o: nat :| o < k && BulkMatch(items, o, j, false) && group.value.bulkOut.value == EndpointOf(items[o]);
      assert HasBoth(items, k, j, i, o);
      if selected.Some? {
        var j1: nat, i1: nat, o1: nat :| Earlier(items, k, j1, i1, o1, selected.value, value);
        assert Different(items, k, j, i, o, j1, i1, o1);
      } else {
        assert OnlyMsc(items, k, j, i, o, group.value.Chosen(value), value);
      }
    } else {
      forall j: nat, i: nat, o: nat | HasBoth(items, k, j, i, o)
        ensures Nearest(items, k) != Some(j)
      {
      }
      if selected.Some? {
        var j1: nat, i1: nat, o1: nat :| Earlier(items, k, j1, i1, o1, selected.value, value);
        assert OnlyMsc(items, k, j1, i1, o1, selected.value, value);
      }
    }
  }

  lemma ClosedTwice(items: seq<Raw>, k: nat, group: Option<Group>, selected: Option<MscInterface>, value: u8)
    requires k <= |items| && MscState(items, k, group, selected, value) && Close(group, selected, value).Err?
    ensures TwoComplete(items, k)
  {
    Closed(items, k, group, selected, value);
  }

  ghost predicate Different(items: seq<Raw>, k: nat, j: nat, i: nat, o: nat, j': nat, i': nat, o': nat) {
    HasBoth(items, k, j, i, o) && HasBoth(items, k, j', i', o') && j != j'
  }

  ghost predicate TwoComplete(items: seq<Raw>, k: nat) {
    exists j: nat, i: nat, o: nat, j': nat, i': nat, o': nat :: Different(items, k, j, i, o, j', i', o')
  }

  /** With two complete interfaces nothing is selectable. */
  lemma TwoAreTooMany(p: Pieces, k: nat, m: MscInterface, value: u8)
    requires k <= |p.items| && TwoComplete(p.items, k)
    ensures !Selectable(p, m, value)
  {
    var j: nat, i: nat, o: nat, j': nat, i': nat, o': nat :| Different(p.items, k, j, i, o, j', i', o');
    assert HasBoth(p.items, |p.items|, j, i, o) && HasBoth(p.items, |p.items|, j', i', o');
  }

  lemma CloseIff(items: seq<Raw>, k: nat, group: Option<Group>, selected: Option<MscInterface>, value: u8, m: MscInterface)
    requires k == |items| && MscState(items, k, group, selected, value)
    ensures Close(group, selected, value) == Ok(Some(m)) <==> Selectable(Pieces(items, None), m, value)
  {
    Closed(items, k, group, selected, value);
    var s := Close(group, selected, value);
    if s.Err? {
      TwoAreTooMany(Pieces(items, None), k, m, value);
    } else if s.value.Some? {
      var j: nat, i: nat, o: nat :| OnlyMsc(items, k, j, i, o, s.value.value, value);
      forall j': nat, i': nat, o': nat | OnlyMsc(items, k, j', i', o', m, value)
        ensures m == s.value.value
      {
        assert j' == j && i' == i && o' == o;
      }
    }
  }

  /** The next descriptor is an interface: the group before it is closed. */
  lemma InterfaceStep(p: Pieces, k: nat, group: Option<Group>, selected: Option<MscInterface>, value: u8, m: MscInterface)
    requires k < |p.items| && MscState(p.items, k, group, selected, value) && p.items[k][1] == INTERFACE
    ensures MscPass(p, k, group, selected, value) == Ok(m) <==> Selectable(p, m, value)
    decreases |p.items| - k, 0
  {
    var s := Close(group, selected, value);
    if s.Err? {
      ClosedTwice(p.items, k, group, selected, value);
      TwoAreTooMany(p, k, m, value);
    } else if |p.items[k]| >= 9 {
      GroupStarts(p.items, k, group, selected, value);
      PassInterface(p, k, group, selected, value);
      MscPassIff(p, k + 1, Some(Group(InterfaceOf(p.items[k]), None, None)), s.value, value, m);
    } else {
      assert !WellFormedAt(p.items, k);
    }
  }

  lemma PassInterface(p: Pieces, k: nat, group: Option<Group>, selected: Option<MscInterface>, value: u8)
    requires k < |p.items| && p.items[k][1] == INTERFACE && |p.items[k]| >= 9 && Close(group, selected, value).Ok?
    ensures MscPass(p, k, group, selected, value)
         == MscPass(p, k + 1, Some(Group(InterfaceOf(p.items[k]), None, None)), Close(group, selected, value).value, value)
  {
  }

  lemma GroupStarts(items: seq<Raw>, k: nat, group: Option<Group>, selected: Option<MscInterface>, value: u8)
    requires k < |items| && MscState(items, k, group, selected, value) && Close(group, selected, value).Ok?
    requires items[k][1] == INTERFACE && |items[k]| >= 9
    ensures MscState(items, k + 1, Some(Group(InterfaceOf(items[k]), None, None)), Close(group, selected, value).value, value)
  {
    Closed(items, k, group, selected, value);
    NewGroup(items, k, Close(group, selected, value).value, value);
  }

  /** A descriptor that is no bulk match completes no interface. */
  lemma NoNewPair(items: seq<Raw>, k: nat, j: nat, i: nat, o: nat)
    requires k < |items| && !BulkMatch(items, k, j, true) && !BulkMatch(items, k, j, false)
    ensures HasBoth(items, k + 1, j, i, o) <==> HasBoth(items, k, j, i, o)
    ensures HasBoth(items, k, j, i, o) ==> j < k
  {
    if HasBoth(items, k, j, i, o) {
      assert EndpointUnder(items, i, j);
    }
  }

  ghost predicate Unmatched(items: seq<Raw>, k: nat) { forall j: nat, isIn: bool :: !BulkMatch(items, k, j, isIn) }

  lemma WellFormedGrows(items: seq<Raw>, k: nat, n: nat)
    requires k < |items| && n == k + 1 && WellFormed(items, k) && WellFormedAt(items, k)
    ensures WellFormed(items, n)
  {
  }

  lemma NoRepeatSame(items: seq<Raw>, k: nat, n: nat)
    requires n == k + 1 && NoRepeat(items, k) && Unmatched(items, k)
    ensures NoRepeat(items, n)
  {
  }

  /** An interface starts with no endpoints. */
  lemma EmptySlots(items: seq<Raw>, k: nat, n: nat)
    requires k < |items| && n == k + 1 && items[k][1] == INTERFACE && |items[k]| >= 9
    ensures GroupState(items, n, Some(Group(InterfaceOf(items[k]), None, None)))
  {
    assert Nearest(items, n) == Some(k);
    forall i: nat, isIn: bool | i < n
      ensures !BulkMatch(items, i, k, isIn)
    {
    }
  }

  lemma NewGroup(items: seq<Raw>, k: nat, selected: Option<MscInterface>, value: u8)
    requires k < |items| && items[k][1] == INTERFACE && |items[k]| >= 9 && WellFormed(items, k) && NoRepeat(items, k)
    requires selected.None? ==> forall j: nat, i: nat, o: nat :: !HasBoth(items, k, j, i, o)
    requires selected.Some? ==> exists j: nat, i: nat, o: nat :: OnlyMsc(items, k, j, i, o, selected.value, value)
    ensures MscState(items, k + 1, Some(Group(InterfaceOf(items[k]), None, None)), selected, value)
  {
    WellFormedGrows(items, k, k + 1);
    NoRepeatSame(items, k, k + 1);
    EmptySlots(items, k, k + 1);
    NewEarlier(items, k, k + 1, selected, value);
  }

  lemma NewEarlier(items: seq<Raw>, k: nat, n: nat, selected: Option<MscInterface>, value: u8)
    requires k < |items| && n == k + 1 && items[k][1] == INTERFACE
    requires selected.None? ==> forall j: nat, i: nat, o: nat :: !HasBoth(items, k, j, i, o)
    requires selected.Some? ==> exists j: nat, i: nat, o: nat :: OnlyMsc(items, k, j, i, o, selected.value, value)
    ensures EarlierState(items, n, selected, value)
  {
    assert Nearest(items, n) == Some(k);
    forall j: nat, i: nat, o: nat | HasBoth(items, n, j, i, o)
      ensures HasBoth(items, k, j, i, o)
    {
      NoNewPair(items, k, j, i, o);
    }
    if selected.Some? {
      var j: nat, i: nat, o: nat :| OnlyMsc(items, k, j, i, o, selected.value, value);
      NoNewPair(items, k, j, i, o);
      assert Earlier(items, n, j, i, o, selected.value, value);
    }
  }

  /** The next descriptor is none: it may add a bulk endpoint to the group. */
  lemma OtherStep(p: Pieces, k: nat, group: Option<Group>, selected: Option<MscInterface>, value: u8, m: MscInterface)
    requires k < |p.items| && MscState(p.items, k, group, selected, value) && p.items[k][1] != INTERFACE
    ensures MscPass(p, k, group, selected, value) == Ok(m) <==> Selectable(p, m, value)
    decreases |p.items| - k, 0
  {
    if !WellFormedAt(p.items, k) || Clash(p.items, k, group) {
      OtherFails(p, k, group, selected, value, m);
    } else {
      GroupGoesOn(p.items, k, group, selected, value);
      PassOther(p, k, group, selected, value);
      MscPassIff(p, k + 1, NextGroup(p.items, k, group), selected, value, m);
    }
  }

  /** A malformed endpoint or one that repeats its direction ends the pass, and nothing is selectable. */
  lemma OtherFails(p: Pieces, k: nat, group: Option<Group>, selected: Option<MscInterface>, value: u8, m: MscInterface)
    requires k < |p.items| && MscState(p.items, k, group, selected, value) && p.items[k][1] != INTERFACE
    requires !WellFormedAt(p.items, k) || Clash(p.items, k, group)
    ensures MscPass(p, k, group, selected, value).Err? && !Selectable(p, m, value)
  {
    if WellFormedAt(p.items, k) {
      Repeats(p.items, k, group.value);
      PassFails(p, k, group, selected, value);
    } else {
      BadEndpoint(p.items, k, group);
    }
  }

  predicate Clash(items: seq<Raw>, k: nat, group: Option<Group>)
    requires k < |items|
  {
    group.Some? && MayAdd(items, k, group.value) && group.value.Taken(EndpointOf(items[k]))
  }

  function NextGroup(items: seq<Raw>, k: nat, group: Option<Group>): Option<Group>
    requires k < |items|
  {
    if group.Some? && MayAdd(items, k, group.value) then Some(group.value.With(EndpointOf(items[k]))) else group
  }

  lemma PassOther(p: Pieces, k: nat, group: Option<Group>, selected: Option<MscInterface>, value: u8)
    requires k < |p.items| && p.items[k][1] != INTERFACE && !Clash(p.items, k, group)
    requires p.items[k][1] == ENDPOINT && group.Some? ==> |p.items[k]| >= 7
    ensures MscPass(p, k, group, selected, value) == MscPass(p, k + 1, NextGroup(p.items, k, group), selected, value)
  {
  }

  lemma GroupGoesOn(items: seq<Raw>, k: nat, group: Option<Group>, selected: Option<MscInterface>, value: u8)
    requires k < |items| && items[k][1] != INTERFACE && MscState(items, k, group, selected, value)
    requires WellFormedAt(items, k) && !Clash(items, k, group)
    ensures MscState(items, k + 1, NextGroup(items, k, group), selected, value)
    ensures items[k][1] == ENDPOINT && group.Some? ==> |items[k]| >= 7
  {
    if group.Some? && MayAdd(items, k, group.value) {
      NewBulk(items, k, group.value, selected, value);
    } else {
      NothingNew(items, k, group, selected, value);
    }
  }

  /** Descriptor `k` is an endpoint that counts for the group. */
  predicate MayAdd(items: seq<Raw>, k: nat, g: Group)
    requires k < |items|
  {
    items[k][1] == ENDPOINT && |items[k]| >= 7 && g.Counts(EndpointOf(items[k]))
  }

  lemma BadEndpoint(items: seq<Raw>, k: nat, group: Option<Group>)
    requires k < |items| && items[k][1] != INTERFACE && WellFormed(items, k) && !WellFormedAt(items, k) && GroupState(items, k, group)
    ensures group.Some? && items[k][1] == ENDPOINT && |items[k]| < 7
  {
    assert WellFormedAt(items, Nearest(items, k).value);
  }

  lemma AddMatches(items: seq<Raw>, k: nat, g: Group)
    requires k < |items| && WellFormed(items, k) && GroupState(items, k, Some(g)) && MayAdd(items, k, g)
    ensures BulkMatch(items, k, Nearest(items, k).value, IsIn(EndpointOf(items[k])))
  {
    assert WellFormedAt(items, Nearest(items, k).value);
  }

  lemma Repeats(items: seq<Raw>, k: nat, g: Group)
    requires k < |items| && WellFormed(items, k) && GroupState(items, k, Some(g)) && MayAdd(items, k, g) && g.Taken(EndpointOf(items[k]))
    ensures !NoRepeat(items, |items|)
  {
    RepeatsBelow(items, k, g, |items|);
  }

  lemma RepeatsBelow(items: seq<Raw>, k: nat, g: Group, n: nat)
    requires k < |items| && k < n && WellFormed(items, k) && GroupState(items, k, Some(g)) && MayAdd(items, k, g) && g.Taken(EndpointOf(items[k]))
    ensures !NoRepeat(items, n)
  {
    AddMatches(items, k, g);
    var j, isIn := Nearest(items, k).value, IsIn(EndpointOf(items[k]));
    assert SlotState(items, k, j, isIn, if isIn then g.bulkIn else g.bulkOut);
    var i: nat :| i < k && BulkMatch(items, i, j, isIn);
  }

  lemma NewBulk(items: seq<Raw>, k: nat, g: Group, selected: Option<MscInterface>, value: u8)
    requires k < |items| && MscState(items, k, Some(g), selected, value) && WellFormedAt(items, k)
    requires MayAdd(items, k, g) && !g.Taken(EndpointOf(items[k]))
    ensures MscState(items, k + 1, Some(g.With(EndpointOf(items[k]))), selected, value)
  {
    var n := k + 1;
    WellFormedGrows(items, k, n);
    NewSlots(items, k, n, g);
    NewNoRepeat(items, k, n, g);
    EarlierKept(items, k, n, selected, value);
  }

  lemma NewSlots(items: seq<Raw>, k: nat, n: nat, g: Group)
    requires k < |items| && n == k + 1 && WellFormed(items, k) && GroupState(items, k, Some(g))
    requires MayAdd(items, k, g) && !g.Taken(EndpointOf(items[k]))
    ensures GroupState(items, n, Some(g.With(EndpointOf(items[k]))))
  {
    AddMatches(items, k, g);
    var e := EndpointOf(items[k]);
    var j := Nearest(items, k).value;
    assert Nearest(items, n) == Some(j);
    if IsIn(e) {
      SlotKept(items, k, n, j, false, g.bulkOut);
      assert SlotState(items, n, j, true, Some(e));
    } else {
      SlotKept(items, k, n, j, true, g.bulkIn);
      assert SlotState(items, n, j, false, Some(e));
    }
  }

  /** The first of its direction under its interface repeats nothing. */
  lemma NewNoRepeat(items: seq<Raw>, k: nat, n: nat, g: Group)
    requires k < |items| && n == k + 1 && WellFormed(items, k) && NoRepeat(items, k) && GroupState(items, k, Some(g))
    requires MayAdd(items, k, g) && !g.Taken(EndpointOf(items[k]))
    ensures NoRepeat(items, n)
  {
    AddMatches(items, k, g);
    var j, isIn := Nearest(items, k).value, IsIn(EndpointOf(items[k]));
    assert SlotState(items, k, j, isIn, None);
    forall j': nat, isIn': bool | BulkMatch(items, k, j', isIn')
      ensures j' == j && isIn' == isIn
    {
    }
  }

  /** A slot stays as it is unless descriptor `k` matches it. */
  lemma SlotKept(items: seq<Raw>, k: nat, n: nat, j: nat, isIn: bool, found: Option<Endpoint>)
    requires n == k + 1 && SlotState(items, k, j, isIn, found) && !BulkMatch(items, k, j, isIn)
    ensures SlotState(items, n, j, isIn, found)
  {
    if found.Some? {
      var i: nat :| i < k && BulkMatch(items, i, j, isIn) && found.value == EndpointOf(items[i]);
      assert i < n;
    }
  }

  /** Whatever descriptor `k` adds, it adds to the current group. */
  lemma EarlierKept(items: seq<Raw>, k: nat, n: nat, selected: Option<MscInterface>, value: u8)
    requires k < |items| && n == k + 1 && items[k][1] != INTERFACE && EarlierState(items, k, selected, value)
    ensures EarlierState(items, n, selected, value)
  {
    assert Nearest(items, n) == Nearest(items, k);
    forall j: nat, i: nat, o: nat | HasBoth(items, n, j, i, o)
      ensures HasBoth(items, k, j, i, o) || Nearest(items, k) == Some(j)
    {
      PairsGrow(items, k, j, i, o);
    }
    if selected.Some? {
      var j: nat, i: nat, o: nat :| Earlier(items, k, j, i, o, selected.value, value);
      PairsGrow(items, k, j, i, o);
      assert Earlier(items, n, j, i, o, selected.value, value);
    }
  }

  lemma PairsGrow(items: seq<Raw>, k: nat, j: nat, i: nat, o: nat)
    requires k < |items|
    ensures HasBoth(items, k + 1, j, i, o) ==> HasBoth(items, k, j, i, o) || Nearest(items, k) == Some(j)
    ensures HasBoth(items, k, j, i, o) ==> HasBoth(items, k + 1, j, i, o)
  {
    if HasBoth(items, k + 1, j, i, o) && !HasBoth(items, k, j, i, o) {
      assert EndpointUnder(items, i, j) && EndpointUnder(items, o, j);
    }
  }

  lemma NothingNew(items: seq<Raw>, k: nat, group: Option<Group>, selected: Option<MscInterface>, value: u8)
    requires k < |items| && items[k][1] != INTERFACE && MscState(items, k, group, selected, value) && WellFormedAt(items, k)
    requires group.Some? ==> !MayAdd(items, k, group.value)
    ensures MscState(items, k + 1, group, selected, value)
  {
    NoMatchHere(items, k, group);
    WellFormedGrows(items, k, k + 1);
    NoRepeatSame(items, k, k + 1);
    SlotsSame(items, k, k + 1, group);
    EarlierKept(items, k, k + 1, selected, value);
  }

  lemma NoMatchHere(items: seq<Raw>, k: nat, group: Option<Group>)
    requires k < |items| && items[k][1] != INTERFACE && WellFormedAt(items, k) && GroupState(items, k, group)
    requires group.Some? ==> !MayAdd(items, k, group.value)
    ensures Unmatched(items, k)
  {
  }

  lemma SlotsSame(items: seq<Raw>, k: nat, n: nat, group: Option<Group>)
    requires k < |items| && n == k + 1 && items[k][1] != INTERFACE && GroupState(items, k, group) && Unmatched(items, k)
    ensures GroupState(items, n, group)
  {
    assert Nearest(items, n) == Nearest(items, k);
    if group.Some? {
      var j := Nearest(items, k).value;
      SlotKept(items, k, n, j, true, group.value.bulkIn);
      SlotKept(items, k, n, j, false, group.value.bulkOut);
    }
  }

  // ---- which error is reported ----

  /** The groups below this position are closed before descriptor `k` is judged. */
  function SettledAt(p: Pieces, k: nat): (c: nat)
    requires k <= |p.items|
    ensures c <= k
  {
    if (if k == |p.items| then p.end.None? else p.items[k][1] == 4) then k
    else if Nearest(p.items, k).Some? then Nearest(p.items, k).value else 0
  }

  /**
     A selection that fails: a repeated direction, or a second complete interface by the time it is
     closed, is unsupported; otherwise the first malformed descriptor decides, then what ends the
     region, and then that no interface is complete.
   */
  lemma MscFailsAtTheFirst(p: Pieces, value: u8, stop: nat)
    requires stop <= |p.items| && WellFormed(p.items, stop)
    ensures var r := MscPass(p, 0, None, None, value); FailsAt(p, stop, r)
  {
    MscFailsFrom(p, 0, None, None, value, stop);
  }

  ghost predicate FailsAt(p: Pieces, stop: nat, r: Answer)
    requires stop <= |p.items|
  {
    if !NoRepeat(p.items, stop) || TwoComplete(p.items, SettledAt(p, stop)) then r == Err(Unsupported)
    else if stop < |p.items| then !WellFormedAt(p.items, stop) ==> r == Err(InvalidLength)
    else if p.end.Some? then r == Err(p.end.value)
    else (forall j: nat, i: nat, o: nat :: !HasBoth(p.items, stop, j, i, o)) ==> r == Err(Unsupported)
  }

  lemma {:induction false} MscFailsFrom(p: Pieces, k: nat, group: Option<Group>, selected: Option<MscInterface>, value: u8, stop: nat)
    requires k <= stop <= |p.items| && WellFormed(p.items, stop) && MscState(p.items, k, group, selected, value)
    ensures FailsAt(p, stop, MscPass(p, k, group, selected, value))
    decreases stop - k
  {
    if k == stop {
      FailsHere(p, k, group, selected, value);
    } else {
      assert WellFormedAt(p.items, k);
      if p.items[k][1] == INTERFACE {
        FailsPastInterface(p, k, group, selected, value, stop);
      } else {
        FailsPastOther(p, k, group, selected, value, stop);
      }
    }
  }

  lemma FailsPastInterface(p: Pieces, k: nat, group: Option<Group>, selected: Option<MscInterface>, value: u8, stop: nat)
    requires k < stop <= |p.items| && WellFormed(p.items, stop) && MscState(p.items, k, group, selected, value)
    requires p.items[k][1] == INTERFACE && |p.items[k]| >= 9
    ensures FailsAt(p, stop, MscPass(p, k, group, selected, value))
    decreases stop - k, 0
  {
    if Close(group, selected, value).Err? {
      ClosedTwice(p.items, k, group, selected, value);
      SettledLater(p, k, stop);
      PassFails(p, k, group, selected, value);
    } else {
      GroupStarts(p.items, k, group, selected, value);
      PassInterface(p, k, group, selected, value);
      MscFailsFrom(p, k + 1, Some(Group(InterfaceOf(p.items[k]), None, None)), Close(group, selected, value).value, value, stop);
    }
  }

  lemma FailsPastOther(p: Pieces, k: nat, group: Option<Group>, selected: Option<MscInterface>, value: u8, stop: nat)
    requires k < stop <= |p.items| && WellFormed(p.items, stop) && MscState(p.items, k, group, selected, value)
    requires p.items[k][1] != INTERFACE && WellFormedAt(p.items, k)
    ensures FailsAt(p, stop, MscPass(p, k, group, selected, value))
    decreases stop - k, 0
  {
    if Clash(p.items, k, group) {
      ClashFails(p, k, group, selected, value, stop);
    } else {
      GroupGoesOn(p.items, k, group, selected, value);
      PassOther(p, k, group, selected, value);
      MscFailsFrom(p, k + 1, NextGroup(p.items, k, group), selected, value, stop);
    }
  }

  lemma ClashFails(p: Pieces, k: nat, group: Option<Group>, selected: Option<MscInterface>, value: u8, stop: nat)
    requires k < stop <= |p.items| && MscState(p.items, k, group, selected, value)
    requires p.items[k][1] != INTERFACE && Clash(p.items, k, group)
    ensures FailsAt(p, stop, MscPass(p, k, group, selected, value))
  {
    RepeatsBelow(p.items, k, group.value, stop);
    PassFails(p, k, group, selected, value);
  }

  lemma PassFails(p: Pieces, k: nat, group: Option<Group>, selected: Option<MscInterface>, value: u8)
    requires k < |p.items|
    requires if p.items[k][1] == INTERFACE then Close(group, selected, value).Err? else Clash(p.items, k, group)
    ensures MscPass(p, k, group, selected, value) == Err(Unsupported)
  {
  }

  /** Two interfaces that are complete when one is met stay settled. */
  lemma SettledLater(p: Pieces, k: nat, stop: nat)
    requires k < stop <= |p.items| && p.items[k][1] == 4 && TwoComplete(p.items, k)
    ensures TwoComplete(p.items, SettledAt(p, stop))
  {
    assert SettledAt(p, stop) >= k;
    var j: nat, i: nat, o: nat, j': nat, i': nat, o': nat :| Different(p.items, k, j, i, o, j', i', o');
    assert Different(p.items, SettledAt(p, stop), j, i, o, j', i', o');
  }

  lemma FailsHere(p: Pieces, k: nat, group: Option<Group>, selected: Option<MscInterface>, value: u8)
    requires k <= |p.items| && MscState(p.items, k, group, selected, value)
    ensures FailsAt(p, k, MscPass(p, k, group, selected, value))
  {
    SettledIffClosed(p, k, group, selected, value);
    if k < |p.items| && p.items[k][1] != INTERFACE && !WellFormedAt(p.items, k) {
      BadEndpoint(p.items, k, group);
    } else if k == |p.items| && p.end.None? {
      Closed(p.items, k, group, selected, value);
    }
  }

  /** Closing the group now is an error exactly if two interfaces are complete; before, at most one was. */
  lemma SettledIffClosed(p: Pieces, k: nat, group: Option<Group>, selected: Option<MscInterface>, value: u8)
    requires k <= |p.items| && MscState(p.items, k, group, selected, value)
    ensures TwoComplete(p.items, k) <==> Close(group, selected, value).Err?
    ensures SettledAt(p, k) < k ==> !TwoComplete(p.items, SettledAt(p, k))
  {
    var items, c := p.items, SettledAt(p, k);
    Closed(items, k, group, selected, value);
    if TwoComplete(items, c) && c < k {
      var j: nat, i: nat, o: nat, j': nat, i': nat, o': nat :| Different(items, c, j, i, o, j', i', o');
      EarlierIsOne(items, k, c, j, i, o, j', i', o', selected, value);
    }
  }

  lemma EarlierIsOne(items: seq<Raw>, k: nat, c: nat, j: nat, i: nat, o: nat, j': nat, i': nat, o': nat, selected: Option<MscInterface>, value: u8)
    requires k <= |items| && EarlierState(items, k, selected, value)
    requires c <= k && (Nearest(items, k).Some? ==> c <= Nearest(items, k).value)
    ensures !Different(items, c, j, i, o, j', i', o')
  {
    if Different(items, c, j, i, o, j', i', o') {
      assert EndpointUnder(items, i, j) && EndpointUnder(items, i', j');
      assert HasBoth(items, k, j, i, o) && HasBoth(items, k, j', i', o');
    }
  }
}
