/**
 USB configuration descriptors of kernel/src/xhci/usb.rs: a checked iterator with push-back, and
 the selection of a HID boot endpoint and of a Bulk-Only mass storage interface.
*/
module Descriptors {
  import opened Prelude

  datatype DescriptorError = Truncated | ZeroLength | InvalidLength | MissingConfiguration | Unsupported

  type Raw = r: seq<u8> | |r| >= 2 witness [2, 0]

  const INTERFACE: u8 := 4
  const ENDPOINT: u8 := 5

  datatype Interface = Interface(number: u8, alternate: u8, class_: u8, subclass: u8, protocol: u8)

  datatype Endpoint = Endpoint(address: u8, attributes: u8, maxPacketSize: nat, interval: u8)

  function InterfaceOf(r: Raw): Interface
    requires |r| >= 9
  {
    Interface(r[2], r[3], r[5], r[6], r[7])
  }

  function EndpointOf(r: Raw): Endpoint
    requires |r| >= 7
  {
    Endpoint(r[2], r[3] % 4, (r[4] as int + 256 * r[5] as int) % 2048, r[6])
  }

  // ---- the sequence of descriptors in a region ----

  /** The descriptors from `at` on, and the error that ends them if they do not tile the region. */
  datatype Pieces = Pieces(items: seq<Raw>, end: Option<DescriptorError>)

  function HeadError(bytes: seq<u8>, at: nat): Option<DescriptorError>
    requires at < |bytes|
  {
    if |bytes| - at < 2 then Some(Truncated)
    else if bytes[at] == 0 then Some(ZeroLength)
    else if bytes[at] < 2 then Some(InvalidLength)
    else if at + bytes[at] as int > |bytes| then Some(Truncated)
    else None
  }

  function PiecesFrom(bytes: seq<u8>, at: nat): Pieces
    requires at <= |bytes|
    decreases |bytes| - at
  {
    if at == |bytes| then Pieces([], None)
    else if HeadError(bytes, at).Some? then Pieces([], HeadError(bytes, at))
    else
      var rest := PiecesFrom(bytes, at + bytes[at] as int);
      rest.(items := [bytes[at..at + bytes[at] as int]] + rest.items)
  }

  function Joined(items: seq<Raw>): seq<u8> {
    if items == [] then [] else items[0] + Joined(items[1..])
  }

  /** Without an error the descriptors are the region, cut up, and each is as long as its first byte says. */
  lemma {:induction false} PiecesTile(bytes: seq<u8>, at: nat)
    requires at <= |bytes|
    ensures var p := PiecesFrom(bytes, at);
      && (forall i :: 0 <= i < |p.items| ==> |p.items[i]| == p.items[i][0] as int)
      && (p.end.None? ==> Joined(p.items) == bytes[at..])
      && Joined(p.items) <= bytes[at..]
    decreases |bytes| - at
  {
    if at < |bytes| && HeadError(bytes, at).None? {
      var next := at + bytes[at] as int;
      PiecesTile(bytes, next);
      var p, q := PiecesFrom(bytes, at), PiecesFrom(bytes, next);
      assert p.items[1..] == q.items;
      assert bytes[at..] == bytes[at..next] + bytes[next..];
    }
  }

  /** Cutting up any concatenation of descriptors gives those descriptors back. */
  lemma {:induction false} PiecesOfJoined(bytes: seq<u8>, at: nat, items: seq<Raw>)
    requires at <= |bytes| && bytes[at..] == Joined(items)
    requires forall i :: 0 <= i < |items| ==> |items[i]| == items[i][0] as int
    ensures PiecesFrom(bytes, at) == Pieces(items, None)
    decreases |items|
  {
    if items != [] {
      var next := at + |items[0]|;
      FirstPiece(bytes, at, items[0], Joined(items[1..]));
      PiecesOfJoined(bytes, next, items[1..]);
      assert [items[0]] + items[1..] == items;
    }
  }

  /** The first of some joined descriptors is found whole. */
  lemma FirstPiece(bytes: seq<u8>, at: nat, item: Raw, rest: seq<u8>)
    requires at <= |bytes| && bytes[at..] == item + rest && |item| == item[0] as int
    ensures at + |item| <= |bytes| && bytes[at + |item|..] == rest && bytes[at..at + |item|] == item
    ensures HeadError(bytes, at).None? && bytes[at] as int == |item|
  {
    assert |bytes| == at + |item| + |rest|;
    assert bytes[at..][..|item|] == item && bytes[at..][|item|..] == rest;
    assert bytes[at] == bytes[at..][0];
  }

  // ---- the iterator ----

  /** The next interface, skipping everything else unchecked, and what is left. */
  function NextInterfaceOf(p: Pieces): (Result<Option<Interface>, DescriptorError>, Pieces)
    decreases |p.items|
  {
    if p.items == [] then (if p.end.Some? then Err(p.end.value) else Ok(None), p)
    else
      var rest := p.(items := p.items[1..]);
      if p.items[0][1] != INTERFACE then NextInterfaceOf(rest)
      else if |p.items[0]| < 9 then (Err(InvalidLength), rest)
      else (Ok(Some(InterfaceOf(p.items[0]))), rest)
  }

  /** The next endpoint before the next interface, which is left in place. */
  function NextEndpointOf(p: Pieces): (Result<Option<Endpoint>, DescriptorError>, Pieces)
    decreases |p.items|
  {
    if p.items == [] then (if p.end.Some? then Err(p.end.value) else Ok(None), p)
    else
      var rest := p.(items := p.items[1..]);
      if p.items[0][1] == INTERFACE then (Ok(None), p)
      else if p.items[0][1] != ENDPOINT then NextEndpointOf(rest)
      else if |p.items[0]| < 7 then (Err(InvalidLength), rest)
      else (Ok(Some(EndpointOf(p.items[0]))), rest)
  }

  class DescriptorIter {
    const bytes: seq<u8>
    var offset: nat

    ghost predicate Valid()
      reads this
    {
      offset <= |bytes|
    }

    ghost function Rest(): Pieces
      requires Valid()
      reads this
    {
      PiecesFrom(bytes, offset)
    }

    constructor (bytes: seq<u8>, offset: nat)
      requires offset <= |bytes|
      ensures Valid() && this.bytes == bytes && this.offset == offset
    {
      this.bytes, this.offset := bytes, offset;
    }

    method NextRaw() returns (r: Result<Option<Raw>, DescriptorError>)
      requires Valid()
      modifies this`offset
      ensures Valid() && offset >= old(offset)
      ensures r == Ok(None) <==> old(offset) == |bytes|
      ensures r == Err(ZeroLength) <==> old(offset) + 2 <= |bytes| && bytes[old(offset)] == 0
      ensures r == Err(InvalidLength) <==> old(offset) + 2 <= |bytes| && bytes[old(offset)] == 1
      ensures r == Err(Truncated) <==>
        old(offset) + 1 == |bytes| || (old(offset) + 2 <= |bytes| && bytes[old(offset)] >= 2 && old(offset) + bytes[old(offset)] as nat > |bytes|)
      ensures r.Err? ==> r.error in {ZeroLength, InvalidLength, Truncated}
      ensures r.Ok? && r.value.Some? ==>
        old(offset) + 2 <= offset == old(offset) + bytes[old(offset)] as nat <= |bytes| && r.value.value == bytes[old(offset)..offset]
      ensures r.Err? ==> offset == old(offset) < |bytes| && old(Rest()) == Pieces([], Some(r.error))
      ensures r.Ok? && r.value.Some? ==> old(offset) < offset && old(Rest()) == Rest().(items := [r.value.value] + Rest().items)
    {
      if offset == |bytes| {
        return Ok(None);
      }
      if |bytes| - offset < 2 {
        return Err(Truncated);
      }
      var length := bytes[offset] as int;
      if length == 0 {
        return Err(ZeroLength);
      }
      if length < 2 {
        return Err(InvalidLength);
      }
      var end := offset + length;
      if end > |bytes| {
        return Err(Truncated);
      }
      var descriptor: Raw := bytes[offset..end];
      offset := end;
      return Ok(Some(descriptor));
    }

    method NextInterface() returns (r: Result<Option<Interface>, DescriptorError>)
      requires Valid()
      modifies this`offset
      ensures Valid() && offset >= old(offset)
      ensures r == NextInterfaceOf(old(Rest())).0
      ensures r.Ok? ==> Rest() == NextInterfaceOf(old(Rest())).1 && (r.value.Some? ==> offset > old(offset))
    {
      ghost var start := Rest();
      while true
        invariant Valid() && offset >= old(offset)
        invariant NextInterfaceOf(Rest()) == NextInterfaceOf(start)
        decreases |bytes| - offset
      {
        ghost var here := Rest();
        var raw := NextRaw();
        if raw.Err? {
          return Err(raw.error);
        }
        if raw.value.None? {
          return Ok(None);
        }
        assert here.items[1..] == Rest().items;
        if raw.value.value[1] == INTERFACE {
          if |raw.value.value| < 9 {
            return Err(InvalidLength);
          }
          return Ok(Some(InterfaceOf(raw.value.value)));
        }
      }
    }

    method NextEndpoint() returns (r: Result<Option<Endpoint>, DescriptorError>)
      requires Valid()
      modifies this`offset
      ensures Valid() && offset >= old(offset)
      ensures r == NextEndpointOf(old(Rest())).0
      ensures r.Ok? ==> Rest() == NextEndpointOf(old(Rest())).1 && (r.value.Some? ==> offset > old(offset))
    {
      ghost var start := Rest();
      while offset < |bytes|
        invariant Valid() && offset >= old(offset)
        invariant NextEndpointOf(Rest()) == NextEndpointOf(start)
        decreases |bytes| - offset
      {
        ghost var here := Rest();
        var before := offset;
        var raw := NextRaw();
        if raw.Err? {
          return Err(raw.error);
        }
        if raw.value.None? {
          return Ok(None);
        }
        assert here.items[1..] == Rest().items;
        if raw.value.value[1] == INTERFACE {
          offset := before;
          return Ok(None);
        }
        if raw.value.value[1] == ENDPOINT {
          if |raw.value.value| < 7 {
            return Err(InvalidLength);
          }
          return Ok(Some(EndpointOf(raw.value.value)));
        }
      }
      return Ok(None);
    }
  }

  // ---- the configuration header ----

  datatype Configuration = Configuration(bytes: seq<u8>, value: u8)

  /** The field wTotalLength of a configuration descriptor. */
  function TotalLength(data: seq<u8>): nat
    requires |data| >= 4
  {
    data[2] as nat + 256 * data[3] as nat
  }

  /** A configuration descriptor by its two-byte header, whatever follows. */
  predicate SaysConfiguration(data: seq<u8>) { |data| >= 2 && data[0] == 9 && data[1] == 2 }

  /** The whole configuration is there: the nine bytes of its descriptor, and the length these give. */
  predicate WholeConfiguration(data: seq<u8>) { SaysConfiguration(data) && |data| >= 9 && 9 <= TotalLength(data) <= |data| }

  function ParseConfiguration(data: seq<u8>): (r: Result<Configuration, DescriptorError>)
    ensures r.Ok? <==> WholeConfiguration(data) && data[5] != 0
    ensures r.Ok? ==> r.value == Configuration(data[..TotalLength(data)], data[5]) && |r.value.bytes| >= 9
    ensures r == Err(Truncated) <==> |data| < 2 || (SaysConfiguration(data) && !WholeConfiguration(data))
    ensures r == Err(ZeroLength) <==> |data| >= 2 && data[0] == 0
    ensures r == Err(InvalidLength) <==> |data| >= 2 && data[0] != 0 && data[0] != 9 && data[1] == 2
    ensures r == Err(MissingConfiguration) <==>
      (|data| >= 2 && data[0] != 0 && data[1] != 2) || (WholeConfiguration(data) && data[5] == 0)
  {
    if |data| < 2 then Err(Truncated)
    else if data[0] == 0 then Err(ZeroLength)
    else if data[1] != 2 then Err(MissingConfiguration)
    else if data[0] != 9 then Err(InvalidLength)
    else if |data| < 9 then Err(Truncated)
    else
      var total := data[2] as int + 256 * data[3] as int;
      if total < 9 || total > |data| then Err(Truncated)
      else if data[5] == 0 then Err(MissingConfiguration)
      else Ok(Configuration(data[..total], data[5]))
  }

  // ---- HID boot endpoints ----

  datatype HidEndpoint = HidEndpoint(
    configuration: u8, interface: u8, address: u8, maxPacketSize: nat, interval: u8, protocol: u8)

  predicate IsHidBoot(i: Interface) {
    i.alternate == 0 && i.class_ == 3 && i.subclass == 1 && (i.protocol == 1 || i.protocol == 2)
  }

  predicate IsInterruptIn(e: Endpoint) {
    e.address >= 128 && e.attributes == 3 && e.maxPacketSize != 0 && e.interval != 0
  }

  function HidOf(value: u8, i: Interface, e: Endpoint): HidEndpoint {
    HidEndpoint(value, i.number, e.address, e.maxPacketSize, e.interval, i.protocol)
  }

  /** One pass over the descriptors; `under` is the interface last seen. */
  function HidPass(p: Pieces, k: nat, under: Option<Interface>, selected: Option<HidEndpoint>, value: u8): Result<HidEndpoint, DescriptorError>
    requires k <= |p.items|
    decreases |p.items| - k
  {
    if k == |p.items| then
      if p.end.Some? then Err(p.end.value) else if selected.Some? then Ok(selected.value) else Err(Unsupported)
    else
      var raw := p.items[k];
      if raw[1] == INTERFACE then
        if |raw| < 9 then Err(InvalidLength) else HidPass(p, k + 1, Some(InterfaceOf(raw)), selected, value)
      else if raw[1] == ENDPOINT && under.Some? then
        if |raw| < 7 then Err(InvalidLength)
        else if IsHidBoot(under.value) && IsInterruptIn(EndpointOf(raw)) then
          if selected.Some? then Err(Unsupported)
          else HidPass(p, k + 1, under, Some(HidOf(value, under.value, EndpointOf(raw))), value)
        else HidPass(p, k + 1, under, selected, value)
      else HidPass(p, k + 1, under, selected, value)
  }

  method ParseHidBootEndpoint(data: seq<u8>) returns (r: Result<HidEndpoint, DescriptorError>)
    ensures ParseConfiguration(data).Err? ==> r == Err(ParseConfiguration(data).error)
    ensures ParseConfiguration(data).Ok? ==>
      r == HidPass(PiecesFrom(ParseConfiguration(data).value.bytes, 9), 0, None, None, ParseConfiguration(data).value.value)
  {
    var configuration := ParseConfiguration(data);
    if configuration.Err? {
      return Err(configuration.error);
    }
    var value := configuration.value.value;
    var descriptors := new DescriptorIter(configuration.value.bytes, 9);
    ghost var goal := HidPass(descriptors.Rest(), 0, None, None, value);
    var selected := None;
    while true
      invariant descriptors.Valid() && HidPass(descriptors.Rest(), 0, None, selected, value) == goal
      decreases |descriptors.bytes| - descriptors.offset
    {
      HidSkip(descriptors.Rest(), selected, value);
      var interface := descriptors.NextInterface();
      if interface.Err? {
        return Err(interface.error);
      }
      if interface.value.None? {
        break;
      }
      var hidBoot := IsHidBoot(interface.value.value);
      ghost var at := descriptors.offset;
      while true
        invariant descriptors.Valid() && descriptors.offset >= at
        invariant HidPass(descriptors.Rest(), 0, interface.value, selected, value) == goal
        decreases |descriptors.bytes| - descriptors.offset
      {
        HidWalk(descriptors.Rest(), interface.value.value, selected, value);
        var endpoint := descriptors.NextEndpoint();
        if endpoint.Err? {
          return Err(endpoint.error);
        }
        if endpoint.value.None? {
          break;
        }
        if hidBoot && IsInterruptIn(endpoint.value.value) {
          if selected.Some? {
            return Err(Unsupported);
          }
          selected := Some(HidOf(value, interface.value.value, endpoint.value.value));
        }
      }
    }
    if selected.Some? {
      return Ok(selected.value);
    }
    return Err(Unsupported);
  }

  /** Dropping the first descriptor is starting one further. */
  lemma {:induction false} HidShift(p: Pieces, k: nat, under: Option<Interface>, selected: Option<HidEndpoint>, value: u8)
    requires k < |p.items|
    ensures HidPass(p, k + 1, under, selected, value) == HidPass(p.(items := p.items[1..]), k, under, selected, value)
    decreases |p.items| - k
  {
    var q := p.(items := p.items[1..]);
    if k + 1 < |p.items| {
      assert p.items[k + 1] == q.items[k];
      var raw := q.items[k];
      var next := if raw[1] == INTERFACE && |raw| >= 9 then Some(InterfaceOf(raw)) else under;
      HidShift(p, k + 1, next, selected, value);
      if raw[1] == ENDPOINT && |raw| >= 7 && under.Some? {
        HidShift(p, k + 1, under, Some(HidOf(value, under.value, EndpointOf(raw))), value);
      }
    }
  }

  /** What the pass makes of the descriptors up to and including the next interface. */
  lemma {:induction false} HidSkip(p: Pieces, selected: Option<HidEndpoint>, value: u8)
    ensures var (r, rest) := NextInterfaceOf(p);
      HidPass(p, 0, None, selected, value) ==
      if r.Err? then Err(r.error)
      else if r.value.Some? then HidPass(rest, 0, r.value, selected, value)
      else if selected.Some? then Ok(selected.value) else Err(Unsupported)
    decreases |p.items|
  {
    if p.items != [] {
      var rest := p.(items := p.items[1..]);
      if p.items[0][1] != INTERFACE {
        HidShift(p, 0, None, selected, value);
        HidSkip(rest, selected, value);
      } else if |p.items[0]| >= 9 {
        HidShift(p, 0, Some(InterfaceOf(p.items[0])), selected, value);
      }
    }
  }

  /** What the pass makes of the descriptors up to and including the next endpoint of the interface. */
  lemma {:induction false} HidWalk(p: Pieces, i: Interface, selected: Option<HidEndpoint>, value: u8)
    ensures var (r, rest) := NextEndpointOf(p);
      HidPass(p, 0, Some(i), selected, value) ==
      if r.Err? then Err(r.error)
      else if r.value.None? then HidPass(rest, 0, None, selected, value)
      else if IsHidBoot(i) && IsInterruptIn(r.value.value) then
        if selected.Some? then Err(Unsupported) else HidPass(rest, 0, Some(i), Some(HidOf(value, i, r.value.value)), value)
      else HidPass(rest, 0, Some(i), selected, value)
    decreases |p.items|
  {
    if p.items != [] {
      var rest := p.(items := p.items[1..]);
      if p.items[0][1] == INTERFACE {
      } else {
        HidShift(p, 0, Some(i), selected, value);
        if p.items[0][1] != ENDPOINT {
          HidWalk(rest, i, selected, value);
        } else if |p.items[0]| >= 7 {
          HidShift(p, 0, Some(i), Some(HidOf(value, i, EndpointOf(p.items[0]))), value);
        }
      }
    }
  }

  // ---- what is selected, stated outright ----

  /** The interface descriptor that descriptor `k` comes after most closely. */
  function Nearest(items: seq<Raw>, k: nat): (j: Option<nat>)
    requires k <= |items|
    ensures j.Some? ==> j.value < k && items[j.value][1] == 4 && forall i :: j.value < i < k ==> items[i][1] != 4
    ensures j.None? ==> forall i :: 0 <= i < k ==> items[i][1] != 4
  {
    if k == 0 then None else if items[k - 1][1] == INTERFACE then Some(k - 1) else Nearest(items, k - 1)
  }

  /** Interfaces have nine bytes, endpoints of an interface seven. */
  predicate WellFormedAt(items: seq<Raw>, i: nat)
    requires i < |items|
  {
    && (items[i][1] == 4 ==> |items[i]| >= 9)
    && (items[i][1] == 5 && Nearest(items, i).Some? ==> |items[i]| >= 7)
  }

  ghost predicate WellFormed(items: seq<Raw>, k: nat)
    requires k <= |items|
  {
    forall i: nat :: i < k ==> WellFormedAt(items, i)
  }

  /** Descriptor `i` is an endpoint of interface descriptor `j`. */
  predicate EndpointUnder(items: seq<Raw>, i: nat, j: nat) {
    && i < |items| && items[i][1] == 5 && |items[i]| >= 7
    && Nearest(items, i) == Some(j) && |items[j]| >= 9
  }

  /** The low eleven bits of wMaxPacketSize. */
  function PacketSize(r: Raw): nat
    requires |r| >= 7
  {
    (r[4] as nat + 256 * r[5] as nat) % 2048
  }

  /** Class 3, subclass 1, protocol 1 or 2, setting 0; an interrupt endpoint to the host with a size and an interval. */
  predicate HidMatch(items: seq<Raw>, i: nat, j: nat) {
    && EndpointUnder(items, i, j)
    && var e, f := items[i], items[j];
       && f[3] == 0 && f[5] == 3 && f[6] == 1 && (f[7] == 1 || f[7] == 2)
       && e[2] >= 128 && e[3] % 4 == 3 && PacketSize(e) != 0 && e[6] != 0
  }

  /** Descriptor `i` below `k` is a match and the only one, and `e` describes it. */
  ghost predicate OnlyHid(items: seq<Raw>, k: nat, i: nat, j: nat, e: HidEndpoint, value: u8) {
    && i < k && HidMatch(items, i, j)
    && e.configuration == value && e.interface == items[j][2] && e.protocol == items[j][7]
    && e.address == items[i][2] && e.maxPacketSize == PacketSize(items[i]) && e.interval == items[i][6]
    && forall i': nat, j': nat :: i' < k && HidMatch(items, i', j') ==> i' == i
  }

  ghost predicate NoHid(items: seq<Raw>, k: nat) {
    forall i: nat, j: nat :: i < k ==> !HidMatch(items, i, j)
  }

  /** The pass's state after `k` descriptors says what was found among them. */
  ghost predicate HidState(items: seq<Raw>, k: nat, under: Option<Interface>, selected: Option<HidEndpoint>, value: u8)
    requires k <= |items| && WellFormed(items, k)
  {
    && under == UnderAt(items, k)
    && (selected.None? ==> NoHid(items, k))
    && (selected.Some? ==> exists i, j :: OnlyHid(items, k, i, j, selected.value, value))
  }

  function UnderAt(items: seq<Raw>, k: nat): Option<Interface>
    requires k <= |items|
  {
    var j := Nearest(items, k);
    if j.Some? && |items[j.value]| >= 9 then Some(InterfaceOf(items[j.value])) else None
  }

  /**
     The selection is right: it succeeds with `e` if and only if the region tiles into well-formed
     descriptors and exactly one endpoint matches under its nearest interface, the one `e` describes.
   */
  lemma HidSelectsTheOnlyMatch(p: Pieces, value: u8, e: HidEndpoint)
    ensures HidPass(p, 0, None, None, value) == Ok(e) <==>
      p.end.None? && WellFormed(p.items, |p.items|) && exists i, j :: OnlyHid(p.items, |p.items|, i, j, e, value)
  {
    HidPassIff(p, 0, None, None, value, e);
  }

  lemma {:induction false} HidPassIff(p: Pieces, k: nat, under: Option<Interface>, selected: Option<HidEndpoint>, value: u8, e: HidEndpoint)
    requires k <= |p.items| && WellFormed(p.items, k) && HidState(p.items, k, under, selected, value)
    ensures HidPass(p, k, under, selected, value) == Ok(e) <==>
      p.end.None? && WellFormed(p.items, |p.items|) && exists i, j :: OnlyHid(p.items, |p.items|, i, j, e, value)
    decreases |p.items| - k
  {
    var items := p.items;
    if k == |items| {
      if selected.Some? {
        var i: nat, j: nat :| OnlyHid(items, k, i, j, selected.value, value);
        forall i', j' | OnlyHid(items, k, i', j', e, value)
          ensures e == selected.value
        {
          assert i' == i;
        }
      }
    } else if !WellFormedAt(items, k) {
      if items[k][1] == ENDPOINT {
        assert under.Some? by {
          var j := Nearest(items, k).value;
          assert WellFormedAt(items, j);
        }
      }
    } else {
      HidOneStep(p, k, under, selected, value, e);
    }
  }

  lemma HidOneStep(p: Pieces, k: nat, under: Option<Interface>, selected: Option<HidEndpoint>, value: u8, e: HidEndpoint)
    requires k < |p.items| && WellFormed(p.items, k) && WellFormedAt(p.items, k) && HidState(p.items, k, under, selected, value)
    ensures HidPass(p, k, under, selected, value) == Ok(e) <==>
      p.end.None? && WellFormed(p.items, |p.items|) && exists i, j :: OnlyHid(p.items, |p.items|, i, j, e, value)
    decreases |p.items| - k, 0
  {
    var items := p.items;
    if Matching(items, k, under) && selected.Some? {
      SecondMatch(items, k, under, selected.value, value, e);
    } else {
      HidGoesOn(items, k, under, selected, value);
      HidPassStep(p, k, under, selected, value);
      HidPassIff(p, k + 1, NextUnder(items, k, under), NextSelected(items, k, under, selected, value), value, e);
    }
  }

  /** Descriptor `k` is a match under the interface last seen. */
  predicate Matching(items: seq<Raw>, k: nat, under: Option<Interface>)
    requires k < |items|
  {
    items[k][1] == ENDPOINT && |items[k]| >= 7 && under.Some? && IsHidBoot(under.value) && IsInterruptIn(EndpointOf(items[k]))
  }

  function NextUnder(items: seq<Raw>, k: nat, under: Option<Interface>): Option<Interface>
    requires k < |items|
  {
    if items[k][1] == INTERFACE && |items[k]| >= 9 then Some(InterfaceOf(items[k])) else under
  }

  function NextSelected(items: seq<Raw>, k: nat, under: Option<Interface>, selected: Option<HidEndpoint>, value: u8): Option<HidEndpoint>
    requires k < |items|
  {
    if Matching(items, k, under) then Some(HidOf(value, under.value, EndpointOf(items[k]))) else selected
  }

  lemma HidPassStep(p: Pieces, k: nat, under: Option<Interface>, selected: Option<HidEndpoint>, value: u8)
    requires k < |p.items| && !(Matching(p.items, k, under) && selected.Some?)
    requires p.items[k][1] == INTERFACE ==> |p.items[k]| >= 9
    requires p.items[k][1] == ENDPOINT && under.Some? ==> |p.items[k]| >= 7
    ensures HidPass(p, k, under, selected, value)
         == HidPass(p, k + 1, NextUnder(p.items, k, under), NextSelected(p.items, k, under, selected, value), value)
  {
  }

  lemma MatchingIs(items: seq<Raw>, k: nat, under: Option<Interface>)
    requires k < |items| && WellFormed(items, k) && under == UnderAt(items, k)
    ensures Nearest(items, k).Some? ==> under.Some?
    ensures Matching(items, k, under) ==> Nearest(items, k).Some? && HidMatch(items, k, Nearest(items, k).value)
    ensures Matching(items, k, under) ==> under.value == InterfaceOf(items[Nearest(items, k).value])
    ensures !Matching(items, k, under) ==> forall j: nat :: !HidMatch(items, k, j)
  {
    if Nearest(items, k).Some? {
      assert WellFormedAt(items, Nearest(items, k).value);
    }
  }

  /** A second match rules every selection out. */
  lemma SecondMatch(items: seq<Raw>, k: nat, under: Option<Interface>, selected: HidEndpoint, value: u8, e: HidEndpoint)
    requires k < |items| && WellFormed(items, k) && HidState(items, k, under, Some(selected), value) && Matching(items, k, under)
    ensures forall i: nat, j: nat :: !OnlyHid(items, |items|, i, j, e, value)
  {
    MatchingIs(items, k, under);
    var i0: nat, j0: nat :| OnlyHid(items, k, i0, j0, selected, value);
    var j1 := Nearest(items, k).value;
    forall i: nat, j: nat
      ensures !OnlyHid(items, |items|, i, j, e, value)
    {
      assert HidMatch(items, i0, j0) && HidMatch(items, k, j1) && i0 != k;
    }
  }

  lemma HidGoesOn(items: seq<Raw>, k: nat, under: Option<Interface>, selected: Option<HidEndpoint>, value: u8)
    requires k < |items| && WellFormed(items, k) && WellFormedAt(items, k) && HidState(items, k, under, selected, value)
    requires !(Matching(items, k, under) && selected.Some?)
    ensures WellFormed(items, k + 1)
    ensures HidState(items, k + 1, NextUnder(items, k, under), NextSelected(items, k, under, selected, value), value)
    ensures items[k][1] == ENDPOINT && under.Some? ==> |items[k]| >= 7
  {
    var n := k + 1;
    MatchingIs(items, k, under);
    assert WellFormed(items, n);
    if Matching(items, k, under) {
      var found := HidOf(value, under.value, EndpointOf(items[k]));
      assert OnlyHid(items, n, k, Nearest(items, k).value, found, value);
    } else if selected.Some? {
      var i0: nat, j0: nat :| OnlyHid(items, k, i0, j0, selected.value, value);
      assert OnlyHid(items, n, i0, j0, selected.value, value);
    } else {
      assert NoHid(items, n);
    }
  }

  // ---- which error is reported ----

  ghost predicate TwoMatches(items: seq<Raw>, k: nat, i: nat, j: nat, i': nat, j': nat) {
    i < i' < k && HidMatch(items, i, j) && HidMatch(items, i', j')
  }

  ghost predicate TwoHid(items: seq<Raw>, k: nat) {
    exists i: nat, j: nat, i': nat, j': nat :: TwoMatches(items, k, i, j, i', j')
  }

  /**
     A selection that fails: of a second match and a malformed descriptor the first in the region
     decides; without either it is what ends the region, and then that nothing matched.
   */
  lemma HidFailsAtTheFirst(p: Pieces, value: u8, stop: nat)
    requires stop <= |p.items| && WellFormed(p.items, stop)
    ensures var r := HidPass(p, 0, None, None, value);
      && (TwoHid(p.items, stop) ==> r == Err(Unsupported))
      && (!TwoHid(p.items, stop) && stop < |p.items| && !WellFormedAt(p.items, stop) ==> r == Err(InvalidLength))
      && (!TwoHid(p.items, stop) && stop == |p.items| && p.end.Some? ==> r == Err(p.end.value))
      && (stop == |p.items| && p.end.None? && NoHid(p.items, stop) ==> r == Err(Unsupported))
  {
    HidFailsFrom(p, 0, None, None, value, stop);
  }

  lemma {:induction false} HidFailsFrom(p: Pieces, k: nat, under: Option<Interface>, selected: Option<HidEndpoint>, value: u8, stop: nat)
    requires k <= stop <= |p.items| && WellFormed(p.items, stop) && HidState(p.items, k, under, selected, value)
    ensures var r := HidPass(p, k, under, selected, value);
      && (TwoHid(p.items, stop) ==> r == Err(Unsupported))
      && (!TwoHid(p.items, stop) && stop < |p.items| && !WellFormedAt(p.items, stop) ==> r == Err(InvalidLength))
      && (!TwoHid(p.items, stop) && stop == |p.items| && p.end.Some? ==> r == Err(p.end.value))
      && (stop == |p.items| && p.end.None? && NoHid(p.items, stop) ==> r == Err(Unsupported))
    decreases stop - k
  {
    var items := p.items;
    if k == stop {
      NotTwoYet(items, k, under, selected, value);
      if k < |items| && !WellFormedAt(items, k) && items[k][1] == ENDPOINT {
        assert WellFormedAt(items, Nearest(items, k).value);
      }
    } else {
      assert WellFormedAt(items, k);
      if Matching(items, k, under) && selected.Some? {
        MatchingIs(items, k, under);
        var i: nat, j: nat :| OnlyHid(items, k, i, j, selected.value, value);
        assert TwoMatches(items, stop, i, j, k, Nearest(items, k).value);
      } else {
        HidGoesOn(items, k, under, selected, value);
        HidPassStep(p, k, under, selected, value);
        HidFailsFrom(p, k + 1, NextUnder(items, k, under), NextSelected(items, k, under, selected, value), value, stop);
      }
    }
  }

  lemma NotTwoYet(items: seq<Raw>, k: nat, under: Option<Interface>, selected: Option<HidEndpoint>, value: u8)
    requires k <= |items| && WellFormed(items, k) && HidState(items, k, under, selected, value)
    ensures !TwoHid(items, k) && (NoHid(items, k) ==> selected.None?)
  {
    forall i: nat, j: nat, i': nat, j': nat
      ensures !TwoMatches(items, k, i, j, i', j')
    {
      if selected.Some? {
        var i0: nat, j0: nat :| OnlyHid(items, k, i0, j0, selected.value, value);
      }
    }
  }
}
