/**
 USB Bulk-Only Transport of kernel/src/xhci/msc.rs: command blocks, status checks, one bounded
 retry, and segmented READ(10).  What the device and the bus do is an arbitrary function of the
 time and of the command packet.
*/
module Bots {
  import opened Prelude

  type u16 = x: int | 0 <= x < 0x1_0000
  type u32 = x: int | 0 <= x < 0x1_0000_0000

  const MOD32 := 0x1_0000_0000
  const CBW_LEN := 31
  const CSW_LEN := 13
  const BLOCK_SIZE := 512
  const MAX_READ_BYTES := 64 * 1024
  const MAX_BLOCKS := 128
  const CBW_SIGNATURE: u32 := 0x4342_5355
  const CSW_SIGNATURE: u32 := 0x5342_5355

  datatype BotError =
    | Transport
    | Stall
    | ShortTransfer
    | InvalidCswSignature
    | InvalidCswTag
    | InvalidResidue
    | CommandFailed
    | PhaseError
    | ReadTooLarge
    | LbaOverflow

  type Outcome = Result<(), BotError>

  /** Errors of the transport or the protocol are worth a reset and a retry; a failed command is not. */
  predicate Recoverable(e: BotError) {
    match e
    case CommandFailed | ReadTooLarge | LbaOverflow => false
    case _ => true
  }

  // ---- byte order ----

  /** The `n` bytes of a number, least significant first. */
  function LeBytes(x: nat, n: nat): (r: seq<u8>)
    ensures |r| == n
  {
    if n == 0 then [] else [(x % 256) as u8] + LeBytes(x / 256, n - 1)
  }

  /** The `n` bytes of a number, most significant first. */
  function BeBytes(x: nat, n: nat): (r: seq<u8>)
    ensures |r| == n
  {
    if n == 0 then [] else BeBytes(x / 256, n - 1) + [(x % 256) as u8]
  }

  function FromLe(bytes: seq<u8>): nat {
    if bytes == [] then 0 else bytes[0] as nat + 256 * FromLe(bytes[1..])
  }

  function FromBe(bytes: seq<u8>): nat {
    if bytes == [] then 0 else 256 * FromBe(bytes[..|bytes| - 1]) + bytes[|bytes| - 1] as nat
  }

  function Pow256(n: nat): nat { if n == 0 then 1 else 256 * Pow256(n - 1) }

  lemma {:induction false} LeRound(x: nat, n: nat)
    requires x < Pow256(n)
    ensures FromLe(LeBytes(x, n)) == x
  {
    if n > 0 {
      LeRound(x / 256, n - 1);
      assert LeBytes(x, n)[1..] == LeBytes(x / 256, n - 1);
    }
  }

  lemma {:induction false} BeRound(x: nat, n: nat)
    requires x < Pow256(n)
    ensures FromBe(BeBytes(x, n)) == x
  {
    if n > 0 {
      BeRound(x / 256, n - 1);
      assert BeBytes(x, n)[..n - 1] == BeBytes(x / 256, n - 1);
    }
  }

  lemma Powers()
    ensures Pow256(2) == 0x1_0000 && Pow256(4) == 0x1_0000_0000
  {
    assert Pow256(1) == 256;
    assert Pow256(2) == 0x1_0000;
    assert Pow256(3) == 0x100_0000;
  }

  // ---- packets ----

  datatype Direction = In | Out | NoData

  /** What of a command block fits into a packet. */
  function Fitting(cdb: seq<u8>): (r: seq<u8>)
    ensures |r| <= 16 && r <= cdb && (|cdb| <= 16 ==> r == cdb)
  {
    if |cdb| <= 16 then cdb else cdb[..16]
  }

  function Packet(tag: u32, len: u32, dir: Direction, lun: u8, cdb: seq<u8>): (p: seq<u8>)
    ensures |p| == CBW_LEN
  {
    LeBytes(CBW_SIGNATURE, 4) + LeBytes(tag, 4) + LeBytes(len, 4) + [if dir.In? then 0x80 else 0, lun, (|cdb| % 256) as u8]
    + Fitting(cdb) + seq(16 - |Fitting(cdb)|, _ => 0)
  }

  function Read10Cdb(lba: u32, blocks: u16): seq<u8> {
    [0x28, 0] + BeBytes(lba, 4) + [0] + BeBytes(blocks, 2) + [0]
  }

  /** How a device reads a packet, by section 5.1 of Bulk-Only Transport 1.0 and the READ(10) layout. */
  datatype Request = Read(tag: nat, lba: nat, blocks: nat)

  function RequestOf(p: seq<u8>): Option<Request> {
    if |p| == 31 && LeWord(p, 0) == 0x4342_5355 && At(p, 12) == 0x80 && At(p, 13) == 0 && At(p, 14) == 10
       && At(p, 15) == 0x28 && LeWord(p, 8) == BeHalf(p, 22) * 512
    then Some(Read(LeWord(p, 4), BeWord(p, 17), BeHalf(p, 22)))
    else None
  }

  /** A byte of a buffer, zero where there is none. */
  function At(s: seq<u8>, i: nat): nat { if i < |s| then s[i] as nat else 0 }

  /** Four bytes, least significant first. */
  function LeWord(s: seq<u8>, i: nat): nat {
    At(s, i) + 0x100 * At(s, i + 1) + 0x1_0000 * At(s, i + 2) + 0x100_0000 * At(s, i + 3)
  }

  /** Four bytes, most significant first. */
  function BeWord(s: seq<u8>, i: nat): nat {
    0x100_0000 * At(s, i) + 0x1_0000 * At(s, i + 1) + 0x100 * At(s, i + 2) + At(s, i + 3)
  }

  function BeHalf(s: seq<u8>, i: nat): nat { 0x100 * At(s, i) + At(s, i + 1) }

  lemma FromLeWord(s: seq<u8>, i: nat)
    requires i + 4 <= |s|
    ensures FromLe(s[i..i + 4]) == LeWord(s, i)
  {
    var w := s[i..i + 4];
    assert w[1..][1..] == w[2..] && w[2..][1..] == w[3..] && w[3..][1..] == [];
    assert FromLe(w[3..]) == w[3] as nat;
    assert FromLe(w[2..]) == w[2] as nat + 256 * FromLe(w[3..]);
    assert FromLe(w[1..]) == w[1] as nat + 256 * FromLe(w[2..]);
  }

  lemma FromBeHalf(s: seq<u8>, i: nat)
    requires i + 2 <= |s|
    ensures FromBe(s[i..i + 2]) == BeHalf(s, i)
  {
    var w := s[i..i + 2];
    assert w[..1][..0] == [] && FromBe(w[..1]) == w[0] as nat;
  }

  lemma FromBeWord(s: seq<u8>, i: nat)
    requires i + 4 <= |s|
    ensures FromBe(s[i..i + 4]) == BeWord(s, i)
  {
    var w := s[i..i + 4];
    assert w[..3][..2] == w[..2] && w[..2][..1] == w[..1] && w[..1][..0] == [];
    assert FromBe(w[..1]) == w[0] as nat;
    assert FromBe(w[..2]) == 256 * FromBe(w[..1]) + w[1] as nat;
    assert FromBe(w[..3]) == 256 * FromBe(w[..2]) + w[2] as nat;
  }

  /** The device understands exactly the command that was meant. */
  lemma ReadUnderstood(tag: u32, lba: u32, blocks: u16)
    ensures RequestOf(Packet(tag, blocks * BLOCK_SIZE, In, 0, Read10Cdb(lba, blocks))) == Some(Read(tag, lba, blocks))
  {
    var cdb := Read10Cdb(lba, blocks);
    var p := Packet(tag, blocks * BLOCK_SIZE, In, 0, cdb);
    PacketFields(tag, blocks * BLOCK_SIZE, cdb);
    CdbFields(p, lba, blocks);
    Powers();
    LeRound(CBW_SIGNATURE, 4);
    LeRound(tag, 4);
    LeRound(blocks * BLOCK_SIZE, 4);
    BeRound(lba, 4);
    BeRound(blocks, 2);
    FromLeWord(p, 0);
    FromLeWord(p, 4);
    FromLeWord(p, 8);
    FromBeWord(p, 17);
    FromBeHalf(p, 22);
    assert p[12] == p[12..15][0] && p[13] == p[12..15][1] && p[14] == p[12..15][2];
  }

  /** Every byte of a packet. */
  lemma PacketOutright(tag: u32, len: u32, dir: Direction, lun: u8, cdb: seq<u8>)
    ensures var p := Packet(tag, len, dir, lun, cdb);
      && |p| == 31 && p[0] == 0x55 && p[1] == 0x53 && p[2] == 0x42 && p[3] == 0x43
      && LeWord(p, 4) == tag && LeWord(p, 8) == len
      && p[12] == (if dir.In? then 0x80 else 0) && p[13] == lun && p[14] as nat == |cdb| % 256
      && forall i :: 0 <= i < 16 ==> p[15 + i] == if i < |cdb| then cdb[i] else 0
  {
    var p := Packet(tag, len, dir, lun, cdb);
    PacketWords(p, tag, len, dir, lun, cdb);
    Signature(p);
  }

  lemma Signature(p: seq<u8>)
    requires |p| >= 4 && LeWord(p, 0) == 0x4342_5355
    ensures p[0] == 0x55 && p[1] == 0x53 && p[2] == 0x42 && p[3] == 0x43
  {
    WordBytes(At(p, 0), At(p, 1), At(p, 2), At(p, 3), 0x55, 0x53, 0x42, 0x43);
  }

  lemma PacketWords(p: seq<u8>, tag: u32, len: u32, dir: Direction, lun: u8, cdb: seq<u8>)
    requires p == Packet(tag, len, dir, lun, cdb)
    ensures LeWord(p, 0) == 0x4342_5355 && LeWord(p, 4) == tag && LeWord(p, 8) == len
  {
    PacketSlices(p, tag, len, dir, lun, cdb);
    Powers();
    LeRound(CBW_SIGNATURE, 4);
    LeRound(tag, 4);
    LeRound(len, 4);
    FromLeWord(p, 0);
    FromLeWord(p, 4);
    FromLeWord(p, 8);
  }

  lemma PacketSlices(p: seq<u8>, tag: u32, len: u32, dir: Direction, lun: u8, cdb: seq<u8>)
    requires p == Packet(tag, len, dir, lun, cdb)
    ensures p[0..4] == LeBytes(CBW_SIGNATURE, 4) && p[4..8] == LeBytes(tag, 4) && p[8..12] == LeBytes(len, 4)
  {
    FieldSlices(LeBytes(CBW_SIGNATURE, 4), LeBytes(tag, 4), LeBytes(len, 4),
      [if dir.In? then 0x80 else 0, lun, (|cdb| % 256) as u8], Fitting(cdb), seq(16 - |Fitting(cdb)|, _ => 0));
  }

  /** Four bytes are determined by the number they stand for. */
  lemma WordBytes(a: nat, b: nat, c: nat, d: nat, e: nat, f: nat, g: nat, h: nat)
    requires a < 256 && b < 256 && c < 256 && e < 256 && f < 256 && g < 256
    requires a + 0x100 * b + 0x1_0000 * c + 0x100_0000 * d == e + 0x100 * f + 0x1_0000 * g + 0x100_0000 * h
    ensures a == e && b == f && c == g && d == h
  {
    LowByte(a, b + 0x100 * c + 0x1_0000 * d, e, f + 0x100 * g + 0x1_0000 * h);
    LowByte(b, c + 0x100 * d, f, g + 0x100 * h);
    LowByte(c, d, g, h);
  }

  lemma LowByte(a: nat, x: nat, e: nat, y: nat)
    requires a < 256 && e < 256 && a + 0x100 * x == e + 0x100 * y
    ensures a == e && x == y
  {
  }

  /** Every byte of a READ(10) command block. */
  lemma Read10Outright(lba: u32, blocks: u16)
    ensures var c := Read10Cdb(lba, blocks);
      && |c| == 10 && c[0] == 0x28 && c[1] == 0 && c[6] == 0 && c[9] == 0
      && BeWord(c, 2) == lba && BeHalf(c, 7) == blocks
  {
    var c := Read10Cdb(lba, blocks);
    assert c[2..6] == BeBytes(lba, 4) && c[7..9] == BeBytes(blocks, 2);
    Powers();
    BeRound(lba, 4);
    BeRound(blocks, 2);
    FromBeWord(c, 2);
    FromBeHalf(c, 7);
  }

  lemma PacketFields(tag: u32, len: u32, cdb: seq<u8>)
    requires |cdb| == 10
    ensures var p := Packet(tag, len, In, 0, cdb);
      && p[0..4] == LeBytes(CBW_SIGNATURE, 4) && p[4..8] == LeBytes(tag, 4) && p[8..12] == LeBytes(len, 4)
      && p[12..15] == [0x80, 0, 10] && p[15..25] == cdb
  {
    FieldSlices(LeBytes(CBW_SIGNATURE, 4), LeBytes(tag, 4), LeBytes(len, 4), [0x80, 0, 10], cdb, seq(6, _ => 0));
    assert Fitting(cdb) == cdb && seq(16 - |cdb|, _ => 0) == seq<u8>(6, _ => 0);
  }

  lemma FieldSlices(a: seq<u8>, b: seq<u8>, c: seq<u8>, d: seq<u8>, e: seq<u8>, f: seq<u8>)
    requires |a| == |b| == |c| == 4 && |d| == 3
    ensures var p := a + b + c + d + e + f;
      p[0..4] == a && p[4..8] == b && p[8..12] == c && p[12..15] == d && p[15..15 + |e|] == e
  {
    var p := a + b + c + d + e + f;
    assert p[0..4] == a;
    assert p[4..8] == b;
    assert p[8..12] == c;
    assert p[12..15] == d;
    assert p[15..15 + |e|] == e;
  }

  lemma CdbFields(p: seq<u8>, lba: u32, blocks: u16)
    requires |p| == CBW_LEN && p[15..25] == Read10Cdb(lba, blocks)
    ensures p[15] == 0x28 && p[17..21] == BeBytes(lba, 4) && p[22..24] == BeBytes(blocks, 2)
  {
    var cdb := p[15..25];
    assert p[15] == cdb[0];
    SubSlice(p, 15, 25, 2, 6);
    SubSlice(p, 15, 25, 7, 9);
    assert cdb[2..6] == BeBytes(lba, 4) && cdb[7..9] == BeBytes(blocks, 2);
  }

  /** Command packets are built in place in a zeroed buffer. */
  method Cbw(tag: u32, len: u32, dir: Direction, lun: u8, cdb: seq<u8>) returns (packet: seq<u8>)
    ensures packet == Packet(tag, len, dir, lun, cdb)
  {
    var bytes := new u8[CBW_LEN](_ => 0);
    CopyInto(bytes, 0, LeBytes(CBW_SIGNATURE, 4));
    CopyInto(bytes, 4, LeBytes(tag, 4));
    CopyInto(bytes, 8, LeBytes(len, 4));
    bytes[12] := if dir.In? then 0x80 else 0;
    bytes[13] := lun;
    bytes[14] := (|cdb| % 256) as u8;
    CopyInto(bytes, 15, Fitting(cdb));
    packet := bytes[..];
    PacketParts(packet, tag, len, dir, lun, cdb);
  }

  /** A buffer with the right bytes at the right places is the packet. */
  lemma PacketParts(p: seq<u8>, tag: u32, len: u32, dir: Direction, lun: u8, cdb: seq<u8>)
    requires |p| == CBW_LEN
    requires forall i :: 0 <= i < 4 ==> p[i] == LeBytes(CBW_SIGNATURE, 4)[i]
    requires forall i :: 4 <= i < 8 ==> p[i] == LeBytes(tag, 4)[i - 4]
    requires forall i :: 8 <= i < 12 ==> p[i] == LeBytes(len, 4)[i - 8]
    requires p[12] == (if dir.In? then 0x80 else 0) && p[13] == lun && p[14] == (|cdb| % 256) as u8
    requires forall i :: 15 <= i < CBW_LEN ==> p[i] == if i < 15 + |Fitting(cdb)| then Fitting(cdb)[i - 15] else 0
    ensures p == Packet(tag, len, dir, lun, cdb)
  {
    var block := Fitting(cdb);
    assert p[0..4] == LeBytes(CBW_SIGNATURE, 4) && p[4..8] == LeBytes(tag, 4) && p[8..12] == LeBytes(len, 4);
    assert p[12..15] == [if dir.In? then 0x80 else 0, lun, (|cdb| % 256) as u8];
    assert p[15..15 + |block|] == block;
    assert p[15 + |block|..] == seq(16 - |block|, _ => 0);
    assert p == p[0..4] + p[4..8] + p[8..12] + p[12..15] + p[15..15 + |block|] + p[15 + |block|..];
  }

  method Read10Command(lba: u32, blocks: u16) returns (cdb: seq<u8>)
    ensures cdb == Read10Cdb(lba, blocks)
  {
    var bytes := new u8[10](_ => 0);
    bytes[0] := 0x28;
    CopyInto(bytes, 2, BeBytes(lba, 4));
    CopyInto(bytes, 7, BeBytes(blocks, 2));
    cdb := bytes[..];
    assert cdb == Read10Cdb(lba, blocks);
  }

  method CopyInto(a: array<u8>, at: nat, s: seq<u8>)
    requires at + |s| <= a.Length
    modifies a
    ensures forall i :: 0 <= i < a.Length ==> a[i] == if at <= i < at + |s| then s[i - at] else old(a[i])
  {
    forall i | 0 <= i < |s| {
      a[at + i] := s[i];
    }
  }

  // ---- status ----

  datatype Csw = Csw(tag: nat, residue: nat, status: u8)

  function ParseCsw(bytes: seq<u8>): Result<Csw, BotError> {
    if |bytes| != CSW_LEN then Err(ShortTransfer)
    else if FromLe(bytes[0..4]) != CSW_SIGNATURE then Err(InvalidCswSignature)
    else if bytes[12] > 2 then Err(PhaseError)
    else Ok(Csw(FromLe(bytes[4..8]), FromLe(bytes[8..12]), bytes[12]))
  }

  function Validate(csw: Csw, tag: nat, requested: nat): Outcome {
    if csw.tag != tag then Err(InvalidCswTag)
    else if csw.residue > requested then Err(InvalidResidue)
    else if csw.status == 0 then (if csw.residue == 0 then Ok(()) else Err(InvalidResidue))
    else if csw.status == 1 then Err(CommandFailed)
    else Err(PhaseError)
  }

  // ---- what the bus may do with one command ----

  /** Results of the three transfers and the bytes that arrived in the data and status buffers. */
  datatype Exchange = Exchange(
    sent: Result<nat, BotError>,
    moved: Result<nat, BotError>, data: seq<u8>,
    status: Result<nat, BotError>, csw: seq<u8>)

  type Bus = (nat, seq<u8>) -> Exchange

  function Overwritten(earlier: seq<u8>, arrived: seq<u8>): (r: seq<u8>)
    ensures |r| == |earlier|
  {
    if |arrived| >= |earlier| then arrived[..|earlier|] else arrived + earlier[|arrived|..]
  }

  predicate HasData(dir: Direction, len: nat) { !dir.NoData? && len > 0 }

  function StatusBytes(x: Exchange): seq<u8> { Overwritten(seq(CSW_LEN, _ => 0), x.csw) }

  /** The verdict on one command: every transfer complete, and a status that is for this command and good. */
  function Verdict(x: Exchange, dir: Direction, tag: nat, len: nat): Outcome {
    if x.sent.Err? then Err(x.sent.error)
    else if x.sent.value != CBW_LEN then Err(ShortTransfer)
    else if HasData(dir, len) && x.moved.Err? then Err(x.moved.error)
    else if HasData(dir, len) && x.moved.value != len then Err(ShortTransfer)
    else if x.status.Err? then Err(x.status.error)
    else if x.status.value != CSW_LEN then Err(ShortTransfer)
    else
      match ParseCsw(StatusBytes(x))
      case Err(e) => Err(e)
      case Ok(csw) => Validate(csw, tag, len)
  }

  // ---- the verdict in terms of bytes ----

  /** All bytes went both ways; the status block counts as zero where nothing arrived. */
  predicate AllMoved(x: Exchange, dir: Direction, len: nat) {
    x.sent == Ok(31) && (dir == NoData || len == 0 || x.moved == Ok(len)) && x.status == Ok(13)
  }

  /** The status block is signed and is for this command. */
  predicate StatusFor(x: Exchange, tag: nat) { LeWord(x.csw, 0) == 0x5342_5355 && LeWord(x.csw, 4) == tag }

  /** Everything moved, and the status says that the command is done with nothing left over. */
  predicate WentWell(x: Exchange, dir: Direction, tag: nat, len: nat) {
    AllMoved(x, dir, len) && StatusFor(x, tag) && LeWord(x.csw, 8) == 0 && At(x.csw, 12) == 0
  }

  /** Everything moved, and the status says that the command failed. */
  predicate WasRefused(x: Exchange, dir: Direction, tag: nat, len: nat) {
    AllMoved(x, dir, len) && StatusFor(x, tag) && LeWord(x.csw, 8) <= len && At(x.csw, 12) == 1
  }

  lemma StatusFields(x: Exchange)
    ensures var s := StatusBytes(x);
      && FromLe(s[0..4]) == LeWord(x.csw, 0) && FromLe(s[4..8]) == LeWord(x.csw, 4) && FromLe(s[8..12]) == LeWord(x.csw, 8)
      && s[12] as nat == At(x.csw, 12)
  {
    var s := StatusBytes(x);
    forall i: nat | i < 13
      ensures At(s, i) == At(x.csw, i)
    {
    }
    FromLeWord(s, 0);
    FromLeWord(s, 4);
    FromLeWord(s, 8);
  }

  /** Exactly when a command is good, and when it is reported as failed. */
  lemma VerdictOutright(x: Exchange, dir: Direction, tag: nat, len: nat)
    ensures Verdict(x, dir, tag, len).Ok? <==> WentWell(x, dir, tag, len)
    ensures WasRefused(x, dir, tag, len) ==> Verdict(x, dir, tag, len) == Err(CommandFailed)
    ensures AllMoved(x, dir, len) && Verdict(x, dir, tag, len) == Err(CommandFailed) ==> WasRefused(x, dir, tag, len)
  {
    StatusFields(x);
    if x.status == Ok(13) && Verdict(x, dir, tag, len).Ok? {
      assert ParseCsw(StatusBytes(x)).Ok?;
    }
  }

  /** What is wrong with a status block that arrived whole decides the error, the signature first. */
  lemma StatusErrors(x: Exchange, dir: Direction, tag: nat, len: nat)
    requires AllMoved(x, dir, len)
    ensures var e := Verdict(x, dir, tag, len); var status, residue := At(x.csw, 12), LeWord(x.csw, 8);
      if LeWord(x.csw, 0) != 0x5342_5355 then e == Err(InvalidCswSignature)
      else if status >= 3 then e == Err(PhaseError)
      else if LeWord(x.csw, 4) != tag then e == Err(InvalidCswTag)
      else if residue > len || (status == 0 && residue > 0) then e == Err(InvalidResidue)
      else status == 2 ==> e == Err(PhaseError)
  {
    StatusFields(x);
  }

  /** A transfer that fails is the result; one that is short is a short transfer. */
  lemma TransferErrors(x: Exchange, dir: Direction, tag: nat, len: nat)
    requires !AllMoved(x, dir, len)
    ensures var e := Verdict(x, dir, tag, len); var data := dir != NoData && len > 0;
      if x.sent != Ok(31) then e == Err(if x.sent.Err? then x.sent.error else ShortTransfer)
      else if data && x.moved != Ok(len) then e == Err(if x.moved.Err? then x.moved.error else ShortTransfer)
      else e == Err(if x.status.Err? then x.status.error else ShortTransfer)
  {
  }

  /** A device that says a read succeeded has delivered the blocks asked for; anything may fail. */
  ghost predicate Honest(bus: Bus, disk: seq<u8>) {
    forall k: nat, p: seq<u8> :: HonestAt(bus(k, p), RequestOf(p), disk)
  }

  predicate HonestAt(x: Exchange, request: Option<Request>, disk: seq<u8>) {
    request.Some? && WentWell(x, In, request.value.tag, request.value.blocks * 512) ==>
      var from, len := request.value.lba * 512, request.value.blocks * 512;
      from + len <= |disk| && len <= |x.data| && x.data[..len] == disk[from..from + len]
  }

  // ---- the driver ----

  predicate Sendable(cdb: seq<u8>) { 1 <= |cdb| <= 16 }

  datatype Setup = BotReset(interface: u8) | ClearHalt(endpoint: u8)

  /** One control transfer and what came of it. */
  datatype Step = Step(setup: Setup, outcome: Outcome)

  datatype Attempt = Attempt(tag: u32, cdb: seq<u8>, outcome: Outcome)

  class Bot {
    const bus: Bus
    const control: (nat, Setup) -> Outcome
    const interface: u8
    const bulkIn: u8
    const bulkOut: u8
    var nextTag: u32
    var clock: nat
    ghost var attempts: seq<Attempt>
    ghost var controls: seq<Step>

    constructor (bus: Bus, control: (nat, Setup) -> Outcome, interface: u8, bulkIn: u8, bulkOut: u8)
      ensures nextTag == 1 && attempts == [] && controls == [] && this.bus == bus
    {
      this.bus, this.control, this.interface, this.bulkIn, this.bulkOut := bus, control, interface, bulkIn, bulkOut;
      nextTag, clock, attempts, controls := 1, 0, [], [];
    }

    method ControlOut(s: Setup) returns (r: Outcome)
      modifies this`clock, this`controls
      ensures controls == old(controls) + [Step(s, r)]
    {
      r := control(clock, s);
      clock := clock + 1;
      controls := controls + [Step(s, r)];
    }

    /** Reset, then clear both halts, stopping at the first failure. */
    method Recover() returns (r: Outcome)
      modifies this`clock, this`controls
      ensures old(controls) <= controls
      ensures Recovery(controls[|old(controls)|..], RecoverySteps(interface, bulkIn, bulkOut), r)
      ensures RecoversOutright(controls[|old(controls)|..], [BotReset(interface), ClearHalt(bulkIn), ClearHalt(bulkOut)], r)
    {
      r := ControlOut(BotReset(interface));
      if r.Ok? {
        r := ControlOut(ClearHalt(bulkIn));
        if r.Ok? {
          r := ControlOut(ClearHalt(bulkOut));
        }
      }
    }

    /** One command: packet out, data, status in; bytes of a failed transfer may already be in the buffer. */
    method CommandOnce(lun: u8, cdb: seq<u8>, dir: Direction, data: array<u8>, lo: nat, hi: nat) returns (r: Outcome)
      requires lo <= hi <= data.Length && hi - lo < MOD32
      modifies this`nextTag, this`clock, this`attempts, data
      ensures !Sendable(cdb) ==> r == Err(Transport)
      ensures TriedOnce(old(attempts), attempts, old(nextTag), nextTag, cdb, r)
      ensures Sendable(cdb) ==> r == Verdict(bus(old(clock), Packet(old(nextTag), hi - lo, dir, lun, cdb)), dir, old(nextTag), hi - lo)
      ensures Sendable(cdb) ==>
        (r.Ok? <==> WentWell(bus(old(clock), Packet(old(nextTag), hi - lo, dir, lun, cdb)), dir, old(nextTag), hi - lo))
      ensures Sendable(cdb) && WasRefused(bus(old(clock), Packet(old(nextTag), hi - lo, dir, lun, cdb)), dir, old(nextTag), hi - lo) ==>
        r == Err(CommandFailed)
      ensures data[..lo] == old(data[..lo]) && data[hi..] == old(data[hi..])
      ensures r.Ok? ==> Answered(bus(old(clock), Packet(old(nextTag), hi - lo, dir, lun, cdb)), dir, old(nextTag), data[lo..hi])
    {
      if cdb == [] || |cdb| > 16 {
        return Err(Transport);
      }
      var tag := nextTag;
      nextTag := (nextTag + 1) % MOD32;
      var packet := Cbw(tag, hi - lo, dir, lun, cdb);
      var x := bus(clock, packet);
      clock := clock + 1;
      r := Transfers(x, dir, tag, data, lo, hi);
      VerdictOutright(x, dir, tag, hi - lo);
      attempts := attempts + [Attempt(tag, cdb, r)];
    }

    /** The transfers of one command, in order, up to the first that fails. */
    method Transfers(x: Exchange, dir: Direction, tag: u32, data: array<u8>, lo: nat, hi: nat) returns (r: Outcome)
      requires lo <= hi <= data.Length
      modifies data
      ensures r == Verdict(x, dir, tag, hi - lo)
      ensures data[..lo] == old(data[..lo]) && data[hi..] == old(data[hi..])
      ensures r.Ok? ==> Answered(x, dir, tag, data[lo..hi])
    {
      VerdictOutright(x, dir, tag, hi - lo);
      if x.sent.Err? {
        return Err(x.sent.error);
      }
      if x.sent.value != CBW_LEN {
        return Err(ShortTransfer);
      }
      if HasData(dir, hi - lo) {
        if dir.In? {
          var arrived := Overwritten(data[lo..hi], x.data);
          CopyInto(data, lo, arrived);
          assert data[lo..hi] == arrived;
        }
        if x.moved.Err? {
          return Err(x.moved.error);
        }
        if x.moved.value != hi - lo {
          return Err(ShortTransfer);
        }
      }
      if x.status.Err? {
        return Err(x.status.error);
      }
      if x.status.value != CSW_LEN {
        return Err(ShortTransfer);
      }
      var csw := ParseCsw(StatusBytes(x));
      if csw.Err? {
        return Err(csw.error);
      }
      return Validate(csw.value, tag, hi - lo);
    }

    /**
     At most two attempts, the second only after a failure worth it and a complete recovery; `k` is
     when the last one happened.
    */
    method Command(lun: u8, cdb: seq<u8>, dir: Direction, data: array<u8>, lo: nat, hi: nat) returns (r: Outcome, ghost k: nat)
      requires lo <= hi <= data.Length && hi - lo < MOD32
      modifies this`nextTag, this`clock, this`attempts, this`controls, data
      ensures old(attempts) <= attempts && old(controls) <= controls
      ensures Traced(cdb, attempts[|old(attempts)|..], controls[|old(controls)|..], RecoverySteps(interface, bulkIn, bulkOut), r)
      ensures TagsConsecutive(old(attempts), attempts, old(nextTag), nextTag)
      ensures data[..lo] == old(data[..lo]) && data[hi..] == old(data[hi..])
      ensures r.Ok? ==> Answered(bus(k, Packet(LastTag(attempts), hi - lo, dir, lun, cdb)), dir, LastTag(attempts), data[lo..hi])
    {
      k := clock;
      ghost var was, asked := attempts, controls;
      r := CommandOnce(lun, cdb, dir, data, lo, hi);
      OneTry(was, attempts, old(nextTag), nextTag, cdb, r);
      assert controls[|asked|..] == [];
      if r.Err? && Recoverable(r.error) {
        ghost var error := r.error;
        var recovered := Recover();
        if recovered.Err? {
          return recovered, k;
        }
        assert recovered == Ok(()) by { assert recovered.value == (); }
        k := clock;
        ghost var between, tag := attempts, nextTag;
        r := CommandOnce(lun, cdb, dir, data, lo, hi);
        TwoTries(was, between, attempts, tag, nextTag, cdb, error, r);
        TagsJoin(was, between, attempts, old(nextTag), tag, nextTag);
      }
    }

    /**
       Reads whole blocks from `lba` on in segments of at most 64 KiB.  `calls` are the commands with
       what each of them took: they tile the range from its start, and only the last may have failed.
    */
    method Read10(lba: u32, data: array<u8>, ghost disk: seq<u8>) returns (r: Outcome, ghost calls: seq<Call>)
      requires Honest(bus, disk)
      modifies this`nextTag, this`clock, this`attempts, this`controls, data
      ensures data.Length == 0 || data.Length % 512 != 0 ==> r == Err(ReadTooLarge) && calls == []
      ensures r.Ok? ==> Delivered(disk, lba * 512, data[..])
      ensures r.Ok? ==> Tiles(calls, lba, data.Length / 512) && AllGood(calls)
      ensures calls != [] ==> CallsInOrder(calls, lba, data.Length / 512, r)
      ensures Logged(calls, old(attempts), attempts, old(controls), controls, RecoverySteps(interface, bulkIn, bulkOut))
      ensures TagsConsecutive(old(attempts), attempts, old(nextTag), nextTag)
    {
      calls := [];
      assert Tiles(calls, lba, 0);
      if data.Length == 0 || data.Length % BLOCK_SIZE != 0 {
        return Err(ReadTooLarge), calls;
      }
      ghost var total, read := data.Length / BLOCK_SIZE, 0;
      var currentLba: u32 := lba;
      var done := 0;
      while done < data.Length
        invariant done == read * BLOCK_SIZE <= data.Length && read <= total
        invariant read < total ==> currentLba == lba + read
        invariant DataSoFar(disk, lba, read, data[..done], calls)
        invariant if read < total then AllFull(calls) else CallsInOrder(calls, lba, total, Ok(()))
        invariant Logged(calls, old(attempts), attempts, old(controls), controls, RecoverySteps(interface, bulkIn, bulkOut))
        invariant TagsConsecutive(old(attempts), attempts, old(nextTag), nextTag)
      {
        var hi, blocks := SegmentBounds(data.Length, done, total, read);
        ghost var earlier := calls;
        r, calls := TakeSegment(currentLba, blocks, data, done, hi, disk, lba, read, calls,
                                old(attempts), old(controls), old(nextTag));
        OneCallMore(earlier, calls, lba, read + blocks, total, r);
        if r.Err? {
          return;
        }
        done := hi;
        read := read + blocks;
        if done != data.Length {
          if currentLba + blocks >= MOD32 {
            return Err(LbaOverflow), calls;
          }
          currentLba := currentLba + blocks;
        }
      }
      assert data[..done] == data[..];
      return Ok(()), calls;
    }

    /** Where the next segment ends and how many blocks it has. */
    method SegmentBounds(len: nat, done: nat, ghost total: nat, ghost read: nat) returns (hi: nat, blocks: u16)
      requires len == total * BLOCK_SIZE && done == read * BLOCK_SIZE && read < total
      ensures blocks == if total - read < MAX_BLOCKS then total - read else MAX_BLOCKS
      ensures hi == (read + blocks) * BLOCK_SIZE && hi - done == blocks * BLOCK_SIZE && hi <= len
    {
      hi := if len - done < MAX_READ_BYTES then len else done + MAX_READ_BYTES;
      blocks := (hi - done) / BLOCK_SIZE;
    }

    /** One turn of the loop over the segments; the ghost parameters are where the read stands. */
    method TakeSegment(at: u32, blocks: u16, data: array<u8>, lo: nat, hi: nat, ghost disk: seq<u8>, ghost lba: u32,
                       ghost read: nat, ghost calls: seq<Call>, ghost was: seq<Attempt>, ghost asked: seq<Step>, ghost tag: u32)
      returns (r: Outcome, ghost more: seq<Call>)
      requires Honest(bus, disk) && lo <= hi <= data.Length && hi - lo == blocks * BLOCK_SIZE && 0 < blocks <= MAX_BLOCKS
      requires at == lba + read && DataSoFar(disk, lba, read, data[..lo], calls)
      requires Logged(calls, was, attempts, asked, controls, RecoverySteps(interface, bulkIn, bulkOut))
      requires TagsConsecutive(was, attempts, tag, nextTag)
      modifies this`nextTag, this`clock, this`attempts, this`controls, data
      ensures r.Ok? ==> DataSoFar(disk, lba, read + blocks, data[..hi], more)
      ensures more != [] && more[..|more| - 1] == calls && more[|more| - 1].outcome == r && more[|more| - 1].blocks == blocks && Tiles(more, lba, read + blocks)
      ensures Logged(more, was, attempts, asked, controls, RecoverySteps(interface, bulkIn, bulkOut))
      ensures TagsConsecutive(was, attempts, tag, nextTag)
    {
      ghost var before, tag1 := attempts, nextTag;
      ghost var call;
      r, call := ReadSegment(at, blocks, data, lo, hi, disk);
      more := calls + [call];
      assert more[..|more| - 1] == calls;
      LogGrows(calls, call, was, before, attempts, asked, old(controls), controls, RecoverySteps(interface, bulkIn, bulkOut));
      TagsJoin(was, before, attempts, tag, tag1, nextTag);
      if r.Ok? {
        assert data[..hi] == data[..lo] + data[lo..hi];
        DataGrows(disk, lba, read, data[..lo], data[lo..hi], calls, call);
      }
    }

    /** One segment of a read. */
    method ReadSegment(lba: u32, blocks: u16, data: array<u8>, lo: nat, hi: nat, ghost disk: seq<u8>) returns (r: Outcome, ghost call: Call)
      requires Honest(bus, disk) && lo <= hi <= data.Length && hi - lo == blocks * BLOCK_SIZE
      modifies this`nextTag, this`clock, this`attempts, this`controls, data
      ensures r.Ok? ==> Delivered(disk, lba * BLOCK_SIZE, data[lo..hi])
      ensures data[..lo] == old(data[..lo])
      ensures attempts == old(attempts) + call.tries && controls == old(controls) + call.steps
      ensures call.lba == lba && call.blocks == blocks && call.outcome == r
      ensures CallFine(call, RecoverySteps(interface, bulkIn, bulkOut))
      ensures TagsConsecutive(old(attempts), attempts, old(nextTag), nextTag) && attempts[..|old(attempts)|] == old(attempts)
    {
      var cdb := Read10Command(lba, blocks);
      ghost var k;
      r, k := Command(0, cdb, In, data, lo, hi);
      call := Call(lba, blocks, attempts[|old(attempts)|..], controls[|old(controls)|..], r);
      if r.Ok? {
        HonestRead(bus, disk, k, LastTag(attempts), lba, blocks, data[lo..hi]);
      }
    }
  }

  function RecoverySteps(interface: u8, bulkIn: u8, bulkOut: u8): seq<Setup> {
    [BotReset(interface), ClearHalt(bulkIn), ClearHalt(bulkOut)]
  }

  /** The exchange was good, and what it delivered is in the buffer. */
  predicate Answered(x: Exchange, dir: Direction, tag: nat, buffer: seq<u8>) {
    && WentWell(x, dir, tag, |buffer|)
    && (dir.In? && |x.data| >= |buffer| ==> buffer == x.data[..|buffer|])
  }

  /** A command that can be sent takes one tag and leaves one entry in the log; one that cannot leaves nothing. */
  ghost predicate TriedOnce(was: seq<Attempt>, now: seq<Attempt>, tag: u32, nextTag: u32, cdb: seq<u8>, r: Outcome) {
    if Sendable(cdb) then now == was + [Attempt(tag, cdb, r)] && nextTag == (tag + 1) % MOD32
    else now == was && nextTag == tag
  }

  ghost function LastTag(attempts: seq<Attempt>): u32 { if attempts == [] then 0 else attempts[|attempts| - 1].tag }

  /** The steps of a recovery up to the first that fails; it succeeds if all of them do. */
  ghost predicate Recovery(steps: seq<Step>, recovery: seq<Setup>, r: Outcome) {
    && 1 <= |steps| <= |recovery|
    && (forall i :: 0 <= i < |steps| ==> steps[i].setup == recovery[i])
    && (forall i :: 0 <= i < |steps| - 1 ==> steps[i].outcome.Ok?)
    && r == steps[|steps| - 1].outcome && (r.Ok? ==> |steps| == |recovery|)
  }

  /** The requests are made in order up to the first that fails, whose error is the result; all three done is success. */
  ghost predicate RecoversOutright(steps: seq<Step>, requests: seq<Setup>, r: Outcome) {
    && 1 <= |steps| <= 3 == |requests|
    && (forall i :: 0 <= i < |steps| ==> steps[i].setup == requests[i])
    && (forall i :: 0 <= i < |steps| ==> (steps[i].outcome.Err? <==> i == |steps| - 1 && r.Err?))
    && (|steps| < 3 ==> r.Err?) && (r.Err? ==> r == steps[|steps| - 1].outcome)
  }

  /** Which errors are worth a reset and a second attempt, and what happens then. */
  lemma TracedOutright(cdb: seq<u8>, tries: seq<Attempt>, steps: seq<Step>, interface: u8, bulkIn: u8, bulkOut: u8, r: Outcome)
    requires Traced(cdb, tries, steps, RecoverySteps(interface, bulkIn, bulkOut), r) && 1 <= |cdb| <= 16
    ensures 1 <= |tries| <= 2 && forall i :: 0 <= i < |tries| ==> tries[i].cdb == cdb
    ensures tries[0].outcome.Ok? || tries[0].outcome.error in {CommandFailed, ReadTooLarge, LbaOverflow} ==>
      |tries| == 1 && steps == [] && r == tries[0].outcome
    ensures var worth := {Transport, Stall, ShortTransfer, InvalidCswSignature, InvalidCswTag, InvalidResidue, PhaseError};
      tries[0].outcome.Err? && tries[0].outcome.error in worth ==>
        var all: Outcome := if |tries| == 2 then Ok(()) else r;
        && RecoversOutright(steps, [BotReset(interface), ClearHalt(bulkIn), ClearHalt(bulkOut)], all)
        && (if |tries| == 2 then r == tries[1].outcome else r.Err?)
  {
  }

  /**
   What one command took.  A failure that is not worth a retry, or a success, ends it at once, and
   no control transfer is made.  Otherwise there is a recovery.  If it fails that is the result; if
   it succeeds there is a second attempt, which decides.
  */
  ghost predicate Traced(cdb: seq<u8>, tries: seq<Attempt>, steps: seq<Step>, recovery: seq<Setup>, r: Outcome) {
    var each := if Sendable(cdb) then 1 else 0;
    && (forall i :: 0 <= i < |tries| ==> tries[i].cdb == cdb)
    && each <= |tries|
    && var first := if each == 1 then tries[0].outcome else Err(Transport);
       if first.Ok? || !Recoverable(first.error) then |tries| == each && steps == [] && r == first
       else
         || (|tries| == each && r.Err? && Recovery(steps, recovery, r))
         || (|tries| == 2 * each && Recovery(steps, recovery, Ok(())) && r == if each == 1 then tries[1].outcome else Err(Transport))
  }

  lemma OneTry(was: seq<Attempt>, now: seq<Attempt>, tag: u32, nextTag: u32, cdb: seq<u8>, r: Outcome)
    requires TriedOnce(was, now, tag, nextTag, cdb, r)
    ensures was <= now && now[|was|..] == if Sendable(cdb) then [Attempt(tag, cdb, r)] else []
    ensures TagsConsecutive(was, now, tag, nextTag) && now[..|was|] == was
    ensures Sendable(cdb) ==> LastTag(now) == tag
  {
  }

  lemma TwoTries(was: seq<Attempt>, between: seq<Attempt>, now: seq<Attempt>, tag: u32, nextTag: u32, cdb: seq<u8>, e: BotError, r: Outcome)
    requires was <= between && TriedOnce(between, now, tag, nextTag, cdb, r)
    ensures was <= now && now[|was|..] == between[|was|..] + if Sendable(cdb) then [Attempt(tag, cdb, r)] else []
    ensures TagsConsecutive(between, now, tag, nextTag) && now[..|between|] == between
    ensures Sendable(cdb) ==> LastTag(now) == tag
  {
  }

  /** A good answer to a READ(10) packet is the blocks asked for. */
  lemma HonestRead(bus: Bus, disk: seq<u8>, k: nat, tag: u32, lba: u32, blocks: u16, buffer: seq<u8>)
    requires Honest(bus, disk) && |buffer| == blocks * BLOCK_SIZE
    requires Answered(bus(k, Packet(tag, |buffer|, In, 0, Read10Cdb(lba, blocks))), In, tag, buffer)
    ensures Delivered(disk, lba * BLOCK_SIZE, buffer)
  {
    ReadUnderstood(tag, lba, blocks);
    var p := Packet(tag, |buffer|, In, 0, Read10Cdb(lba, blocks));
    AnswerIsDelivery(bus(k, p), disk, Read(tag, lba, blocks), buffer);
  }

  lemma AnswerIsDelivery(x: Exchange, disk: seq<u8>, request: Request, buffer: seq<u8>)
    requires HonestAt(x, Some(request), disk) && Answered(x, In, request.tag, buffer) && |buffer| == request.blocks * BLOCK_SIZE
    ensures Delivered(disk, request.lba * BLOCK_SIZE, buffer)
  {
  }

  /** One READ(10) of a longer read: the attempts and the recovery transfers that it took. */
  datatype Call = Call(lba: u32, blocks: u16, tries: seq<Attempt>, steps: seq<Step>, outcome: Outcome)

  ghost predicate CallFine(call: Call, recovery: seq<Setup>) {
    Traced(Read10Cdb(call.lba, call.blocks), call.tries, call.steps, recovery, call.outcome)
  }

  /** No command takes more than two attempts, or more than one recovery, which lies between them. */
  lemma CallBounds(call: Call, recovery: seq<Setup>)
    requires CallFine(call, recovery)
    ensures 1 <= |call.tries| <= 2 && |call.steps| <= |recovery|
    ensures |call.tries| == 2 ==> Recovery(call.steps, recovery, Ok(())) && call.outcome == call.tries[1].outcome
    ensures |call.tries| == 2 ==> call.tries[0].outcome.Err? && Recoverable(call.tries[0].outcome.error)
    ensures |call.tries| == 1 && call.steps == [] ==> call.outcome == call.tries[0].outcome
  {
  }

  /** The calls follow each other without gap or overlap from `lba` over `n` blocks, none over 64 KiB. */
  predicate Tiles(calls: seq<Call>, lba: nat, n: nat) {
    if calls == [] then n == 0
    else
      var last := calls[|calls| - 1];
      && 0 < last.blocks <= n && last.blocks <= 128
      && last.lba == lba + n - last.blocks
      && Tiles(calls[..|calls| - 1], lba, n - last.blocks)
  }

  /** The calls cover the range from its start, perhaps not to its end. */
  ghost predicate TilesStart(calls: seq<Call>, lba: nat, total: nat) {
    exists n: nat :: n <= total && Tiles(calls, lba, n)
  }

  /**
   All calls before the last are good and of 64 KiB.  A read whose calls are all good fails only at
   the end of the address range.
  */
  ghost predicate CallsInOrder(calls: seq<Call>, lba: nat, total: nat, r: Outcome) {
    && TilesStart(calls, lba, total) && calls != []
    && AllFull(calls[..|calls| - 1]) && AllGood(calls[..|calls| - 1])
    && (r.Err? && AllGood(calls) ==> r == Err(LbaOverflow))
  }

  lemma OneCallMore(calls: seq<Call>, more: seq<Call>, lba: nat, n: nat, total: nat, r: Outcome)
    requires AllFull(calls) && AllGood(calls) && more != [] && more[..|more| - 1] == calls && more[|more| - 1].outcome == r
    requires Tiles(more, lba, n) && n <= total
    ensures CallsInOrder(more, lba, total, r)
    ensures r.Ok? ==> AllGood(more) && CallsInOrder(more, lba, total, Err(LbaOverflow))
    ensures more[|more| - 1].blocks == MAX_BLOCKS ==> AllFull(more)
  {
    forall i | 0 <= i < |calls|
      ensures more[i] == calls[i]
    {
    }
  }

  predicate AllFull(calls: seq<Call>) { forall i :: 0 <= i < |calls| ==> calls[i].blocks == 128 }

  predicate AllGood(calls: seq<Call>) { forall i :: 0 <= i < |calls| ==> calls[i].outcome.Ok? }

  ghost predicate Delivered(disk: seq<u8>, from: nat, buffer: seq<u8>) {
    buffer == [] || (from + |buffer| <= |disk| && buffer == disk[from..from + |buffer|])
  }

  function TriesOf(calls: seq<Call>): seq<Attempt> {
    if calls == [] then [] else TriesOf(calls[..|calls| - 1]) + calls[|calls| - 1].tries
  }

  function StepsOf(calls: seq<Call>): seq<Step> {
    if calls == [] then [] else StepsOf(calls[..|calls| - 1]) + calls[|calls| - 1].steps
  }

  /** All attempts and control transfers since the start are those of the calls, in order. */
  ghost predicate Logged(calls: seq<Call>, was: seq<Attempt>, now: seq<Attempt>, asked: seq<Step>, done: seq<Step>, recovery: seq<Setup>) {
    && now == was + TriesOf(calls) && done == asked + StepsOf(calls)
    && forall i :: 0 <= i < |calls| ==> CallFine(calls[i], recovery)
  }

  /** Every attempt takes the next tag, modulo 2^32. */
  ghost predicate TagsConsecutive(was: seq<Attempt>, now: seq<Attempt>, tag: u32, nextTag: u32) {
    && |was| <= |now| && nextTag == (tag + |now| - |was|) % MOD32
    && forall i :: |was| <= i < |now| ==> now[i].tag == (tag + i - |was|) % MOD32
  }

  lemma AddWraps(x: nat, k: nat)
    ensures (x % MOD32 + k) % MOD32 == (x + k) % MOD32
  {
  }

  lemma TagsJoin(a: seq<Attempt>, b: seq<Attempt>, c: seq<Attempt>, ta: u32, tb: u32, tc: u32)
    requires TagsConsecutive(a, b, ta, tb) && TagsConsecutive(b, c, tb, tc) && c[..|b|] == b
    ensures TagsConsecutive(a, c, ta, tc)
  {
    var m := |b| - |a|;
    forall i | |a| <= i < |c|
      ensures c[i].tag == (ta + i - |a|) % MOD32
    {
      if i < |b| {
        assert c[i] == c[..|b|][i];
      } else {
        AddWraps(ta + m, i - |b|);
      }
    }
    AddWraps(ta + m, |c| - |b|);
  }

  /** The data of a read after `read` blocks in some calls. */
  ghost predicate DataSoFar(disk: seq<u8>, lba: nat, read: nat, buffer: seq<u8>, calls: seq<Call>) {
    && |buffer| == read * BLOCK_SIZE
    && Delivered(disk, lba * BLOCK_SIZE, buffer)
    && Tiles(calls, lba, read) && AllGood(calls)
  }

  lemma DataGrows(disk: seq<u8>, lba: u32, read: nat, buffer: seq<u8>, chunk: seq<u8>, calls: seq<Call>, call: Call)
    requires lba + read < MOD32 && DataSoFar(disk, lba, read, buffer, calls) && |chunk| == call.blocks * BLOCK_SIZE && 0 < call.blocks <= MAX_BLOCKS
    requires call.lba == lba + read && call.outcome.Ok? && Delivered(disk, (lba + read) * BLOCK_SIZE, chunk)
    ensures DataSoFar(disk, lba, read + call.blocks, buffer + chunk, calls + [call])
  {
    var more := calls + [call];
    assert more[..|more| - 1] == calls;
    var from := lba * BLOCK_SIZE;
    assert (lba + read) * BLOCK_SIZE == from + |buffer|;
    assert disk[from..from + |buffer| + |chunk|] == disk[from..from + |buffer|] + disk[from + |buffer|..from + |buffer| + |chunk|];
  }

  /** One more call, good or bad. */
  lemma LogGrows(calls: seq<Call>, call: Call, was: seq<Attempt>, before: seq<Attempt>, now: seq<Attempt>,
                 asked: seq<Step>, earlier: seq<Step>, done: seq<Step>, recovery: seq<Setup>)
    requires Logged(calls, was, before, asked, earlier, recovery) && CallFine(call, recovery)
    requires now == before + call.tries && done == earlier + call.steps
    ensures Logged(calls + [call], was, now, asked, done, recovery)
  {
    var more := calls + [call];
    assert more[..|more| - 1] == calls;
    Regroup(was, TriesOf(calls), call.tries);
    Regroup(asked, StepsOf(calls), call.steps);
    forall i | 0 <= i < |more|
      ensures CallFine(more[i], recovery)
    {
      assert i < |calls| ==> more[i] == calls[i];
    }
  }
}
