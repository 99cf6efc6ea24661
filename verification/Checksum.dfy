/**
 The Internet checksum and the echo reply of apps/init/src/icmp.rs.  The 32-bit sum wraps as in a
 release build, so that it does not overflow is a result and not an assumption.
*/
module Checksums {
  import opened Prelude

  const MOD16 := 0x1_0000
  const ONES := 0xffff
  const MOD32 := 0x1_0000_0000

  type u16 = x: int | 0 <= x < 0x1_0000
  type u32 = x: int | 0 <= x < 0x1_0000_0000

  function Word(hi: u8, lo: u8): u16 { hi as int * 256 + lo as int }

  /** The big-endian 16-bit words of the data, added up; an odd last byte is the high byte of a word. */
  function WordSum(data: seq<u8>): nat {
    if data == [] then 0
    else if |data| == 1 then Word(data[0], 0)
    else Word(data[0], data[1]) + WordSum(data[2..])
  }

  /** One's-complement addition of everything in `s`: the representative in 1..65535, and 0 for nothing. */
  function Folded(s: nat): u16 {
    if s == 0 then 0 else (s - 1) % ONES + 1
  }

  /** One's-complement addition of two 16-bit numbers: the carry out is added in again. */
  function OnesAdd(a: nat, b: nat): nat { if a + b > 65535 then a + b - 65535 else a + b }

  /** The one's-complement sum as RFC 1071 defines it, word by word. */
  function OnesSum(data: seq<u8>): nat {
    if data == [] then 0
    else if |data| == 1 then 256 * data[0] as nat
    else OnesAdd(256 * data[0] as nat + data[1] as nat, OnesSum(data[2..]))
  }

  /** Summing first and folding at the end is adding word by word. */
  lemma {:induction false} OnesSumIs(data: seq<u8>)
    ensures OnesSum(data) == Folded(WordSum(data))
    decreases |data|
  {
    if |data| == 1 {
      SmallFold(WordSum(data));
    } else if |data| >= 2 {
      OnesSumIs(data[2..]);
      FoldedAdd(Word(data[0], data[1]), WordSum(data[2..]));
    }
  }

  lemma FoldedAdd(w: u16, s: nat)
    ensures Folded(w + s) == OnesAdd(w, Folded(s))
  {
    if s > 0 {
      var k := (s - 1) / ONES;
      assert s == Folded(s) + ONES * k;
      ModShift(w + Folded(s) - 1, k);
    }
  }

  lemma {:induction false} WordSumBound(data: seq<u8>)
    ensures WordSum(data) <= ONES * ((|data| + 1) / 2)
    ensures |data| % 2 == 1 ==> WordSum(data) <= ONES * ((|data| + 1) / 2) - 255
    decreases |data|
  {
    if |data| >= 2 {
      WordSumBound(data[2..]);
      assert (|data| + 1) / 2 == (|data[2..]| + 1) / 2 + 1;
    }
  }

  lemma {:induction false} AppendWord(data: seq<u8>, more: seq<u8>)
    requires |data| % 2 == 0
    ensures WordSum(data + more) == WordSum(data) + WordSum(more)
    decreases |data|
  {
    if data == [] {
      assert data + more == more;
    } else {
      AppendWord(data[2..], more);
      assert (data + more)[2..] == data[2..] + more;
    }
  }

  /** Exactly up to 131074 bytes the 32-bit sum cannot overflow, whatever the bytes are. */
  lemma NoOverflowIff(n: nat)
    ensures (forall data: seq<u8> :: |data| == n ==> WordSum(data) < MOD32) <==> n <= 131074
  {
    if n <= 131074 {
      forall data: seq<u8> | |data| == n
        ensures WordSum(data) < MOD32
      {
        WordSumBound(data);
      }
    } else {
      var worst: seq<u8> := seq(n, _ => 255);
      WorstSum(n);
      assert |worst| == n && WordSum(worst) >= MOD32;
    }
  }

  lemma {:induction false} WorstSum(n: nat)
    ensures WordSum(seq(n, _ => 255 as u8)) == ONES * (n / 2) + if n % 2 == 1 then 0xff00 else 0
    decreases n
  {
    var w: seq<u8> := seq(n, _ => 255);
    if n >= 2 {
      WorstSum(n - 2);
      assert w[2..] == seq(n - 2, _ => 255 as u8);
    }
  }

  /** Adding the carry back in keeps the value modulo 65535, and zero stays the only zero. */
  lemma FoldStep(s: nat)
    ensures Folded(s % MOD16 + s / MOD16) == Folded(s)
  {
    var r := s % MOD16 + s / MOD16;
    assert s == s / MOD16 * MOD16 + s % MOD16;
    assert s == r + ONES * (s / MOD16);
    if s > 0 {
      assert r > 0;
      ModShift(r - 1, s / MOD16);
    }
  }

  lemma {:induction false} ModShift(x: nat, k: nat)
    ensures (x + ONES * k) % ONES == x % ONES
  {
    if k > 0 {
      ModShift(x, k - 1);
      assert x + ONES * k == (x + ONES * (k - 1)) + ONES;
    }
  }

  lemma NextWordSum(data: seq<u8>, i: nat)
    requires i % 2 == 0 && i + 1 < |data|
    ensures WordSum(data[..i + 2]) == WordSum(data[..i]) + Word(data[i], data[i + 1])
  {
    var pair := [data[i], data[i + 1]];
    assert data[..i + 2] == data[..i] + pair;
    AppendWord(data[..i], pair);
    assert pair[2..] == [];
    assert WordSum(pair) == Word(pair[0], pair[1]) + WordSum(pair[2..]);
  }

  /** 32-bit addition of a word, which may lose a carry. */
  function Add32(sum: u32, w: u16): u32 { if sum + w < MOD32 then sum + w else sum + w - MOD32 }

  /** The first loop: a wrapping 32-bit sum of the words. */
  method SumWords(data: seq<u8>) returns (sum: u32)
    ensures sum == WordSum(data) % MOD32
  {
    sum := 0;
    ghost var carries := 0;
    var i := 0;
    while i + 1 < |data|
      invariant 0 <= i <= |data| && i % 2 == 0
      invariant WordSum(data[..i]) == sum + MOD32 * carries
    {
      NextWordSum(data, i);
      var word := Word(data[i], data[i + 1]);
      carries := if sum + word < MOD32 then carries else carries + 1;
      sum := Add32(sum, word);
      i := i + 2;
    }
    if i < |data| {
      AppendWord(data[..i], [data[i]]);
      assert data == data[..i] + [data[i]];
      var word := Word(data[i], 0);
      carries := if sum + word < MOD32 then carries else carries + 1;
      sum := Add32(sum, word);
    } else {
      assert data == data[..i];
    }
    LostCarries(sum, carries);
  }

  lemma {:induction false} LostCarries(s: u32, carries: nat)
    ensures (s + MOD32 * carries) % MOD32 == s
  {
    if carries > 0 {
      LostCarries(s, carries - 1);
      assert s + MOD32 * carries == (s + MOD32 * (carries - 1)) + MOD32;
    }
  }

  lemma SmallFold(s: nat)
    requires s < MOD16
    ensures Folded(s) == s
  {
  }

  /** The second loop: carries are added back in until the sum fits 16 bits. */
  method FoldSum(start: u32) returns (sum: u16)
    ensures sum == Folded(start)
  {
    var s: u32 := start;
    while s / MOD16 != 0
      invariant Folded(s) == Folded(start)
      decreases s
    {
      FoldStep(s);
      s := s % MOD16 + s / MOD16;
    }
    SmallFold(s);
    sum := s;
  }

  /** The sum's one's complement; with more than 131074 bytes the sum may have wrapped. */
  method ComputeChecksum(data: seq<u8>) returns (checksum: u16)
    ensures checksum == ONES - Folded(WordSum(data) % MOD32)
    ensures |data| <= 131074 ==> checksum == ONES - Folded(WordSum(data))
    ensures |data| <= 131074 ==> checksum == 65535 - OnesSum(data)
  {
    OnesSumIs(data);
    var sum := SumWords(data);
    var folded := FoldSum(sum);
    WordSumBound(data);
    checksum := ONES - folded;
  }

  /** The bytes with a big-endian word stored at an offset. */
  function WithWord(data: seq<u8>, at: nat, w: u16): seq<u8>
    requires at + 1 < |data|
  {
    data[at := (w / 256) as u8][at + 1 := (w % 256) as u8]
  }

  lemma {:induction false} WordSumUpdate(data: seq<u8>, at: nat, w: u16)
    requires at % 2 == 0 && at + 1 < |data|
    ensures WordSum(WithWord(data, at, w)) == WordSum(data) - Word(data[at], data[at + 1]) + w
    decreases |data|
  {
    var data' := WithWord(data, at, w);
    if at == 0 {
      assert data'[2..] == data[2..];
    } else {
      WordSumUpdate(data[2..], at - 2, w);
      assert data'[2..] == WithWord(data[2..], at - 2, w);
    }
  }

  /** Storing the checksum of data with a zeroed field makes the checksum of the whole zero. */
  lemma ChecksumCancels(data: seq<u8>, at: nat)
    requires at % 2 == 0 && at + 1 < |data| && Word(data[at], data[at + 1]) == 0
    ensures Folded(WordSum(WithWord(data, at, ONES - Folded(WordSum(data))))) == ONES
  {
    var s := WordSum(data);
    var c: u16 := ONES - Folded(s);
    ComplementCancels(s);
    assert WordSum(WithWord(data, at, c)) == s + c by {
      WordSumUpdate(data, at, c);
    }
  }

  lemma ComplementCancels(s: nat)
    ensures Folded(s + (ONES - Folded(s))) == ONES
  {
    if s > 0 {
      var k := (s - 1) / ONES;
      assert s - 1 == ONES * k + (s - 1) % ONES;
      ModShift(ONES - 1, k);
    }
  }

  // ---- the echo reply ----

  /** Indexing past the end of a packet stops the program. */
  datatype Outcome = Ignored | Panic | Reply(packet: seq<u8>)

  const REPLY_BYTES := 1500

  /** Where the payload starts: four times the low half of the first byte. */
  function HeaderBytes(packet: seq<u8>): nat
    requires packet != []
  {
    packet[0] as int % 16 * 4
  }

  predicate IsEchoRequest(packet: seq<u8>)
    requires packet != []
  {
    var h := 4 * (packet[0] as int % 16);
    && |packet| >= h + 8 && |packet| >= 20 && |packet| <= 1500
    && packet[0] as int / 16 == 4 && packet[9] == 1 && packet[h] == 8 && packet[h + 1] == 0
  }

  /** The request with its addresses swapped and its type zero; the two checksum fields left open. */
  ghost predicate AnswersTo(packet: seq<u8>, reply: seq<u8>)
    requires IsEchoHeader(packet)
  {
    var h := 4 * (packet[0] as int % 16);
    && |reply| == |packet|
    && (forall i :: 12 <= i < 16 ==> reply[i] == packet[i + 4])
    && (forall i :: 16 <= i < 20 ==> reply[i] == packet[i - 4])
    && reply[h] == 0
    && forall i :: 0 <= i < |packet| && !(10 <= i < 20) && i != h && i != h + 2 && i != h + 3 ==> reply[i] == packet[i]
  }

  ghost predicate IsEchoHeader(packet: seq<u8>) { packet != [] && IsEchoRequest(packet) && HeaderBytes(packet) >= 20 }

  /**
   The packets on which the handler indexes past the end: empty ones, and those of version 4 that
   are shorter than an IPv4 header but no shorter than the header they announce with 8 bytes more,
   unless the protocol byte is there and names another protocol.
  */
  predicate Misleading(packet: seq<u8>) {
    packet == []
    || (4 * (packet[0] as int % 16) + 8 <= |packet| < 20 && packet[0] as int / 16 == 4 && (|packet| > 9 ==> packet[9] == 1))
  }

  /** The packet in the reply buffer, source and destination exchanged, its type zero. */
  function Turned(packet: seq<u8>): (r: seq<u8>)
    requires 20 <= |packet| <= REPLY_BYTES && HeaderBytes(packet) < |packet|
    ensures |r| == REPLY_BYTES
  {
    (packet[..12] + packet[16..20] + packet[12..16] + packet[20..] + seq(REPLY_BYTES - |packet|, _ => 0))[HeaderBytes(packet) := 0]
  }

  /** A buffer with the checksum of its bytes `lo` to `hi` stored at `at`, computed with that field zero. */
  function Summed(s: seq<u8>, lo: nat, hi: nat, at: nat): (r: seq<u8>)
    requires lo <= hi <= |s| && at + 1 < |s|
    ensures |r| == |s|
  {
    Checked(Cleared(s, at), lo, hi, at)
  }

  function Cleared(s: seq<u8>, at: nat): (r: seq<u8>)
    requires at + 1 < |s|
    ensures |r| == |s| && r[at] == 0 && r[at + 1] == 0 && forall i :: 0 <= i < |s| && i != at && i != at + 1 ==> r[i] == s[i]
  {
    s[at := 0][at + 1 := 0]
  }

  /** The checksum of the bytes `lo` to `hi` stored at `at`. */
  function Checked(s: seq<u8>, lo: nat, hi: nat, at: nat): (r: seq<u8>)
    requires lo <= hi <= |s| && at + 1 < |s|
    ensures |r| == |s|
  {
    WithWord(s, at, ChecksumOf(s[lo..hi]))
  }

  function ChecksumOf(data: seq<u8>): u16 { ONES - Folded(WordSum(data)) }

  /** The answer: the payload's checksum first, then that of the header as far as the packet says it goes. */
  function EchoReply(packet: seq<u8>): seq<u8>
    requires packet != [] && IsEchoRequest(packet)
  {
    var h := HeaderBytes(packet);
    Summed(Summed(Turned(packet), h, |packet|, h + 2), 0, h, 10)[..|packet|]
  }

  method TryHandlePing(packet: seq<u8>) returns (r: Outcome)
    ensures r.Panic? <==> Misleading(packet)
    ensures r.Reply? ==> packet != [] && IsEchoRequest(packet) && r.packet == EchoReply(packet)
    ensures packet != [] && |packet| >= 20 ==> (r.Reply? <==> IsEchoRequest(packet))
    ensures IsEchoHeader(packet) ==> r.Reply? && AnswersTo(packet, r.packet)
    ensures r.Reply? && packet[0] as int % 16 >= 3 ==>
      var h := 4 * (packet[0] as int % 16); |r.packet| == |packet| && OnesSum(r.packet[h..]) == 65535 == OnesSum(r.packet[..h])
  {
    if packet == [] {
      return Panic;
    }
    var payloadStart := HeaderBytes(packet);
    if |packet| < payloadStart + 8 {
      return Ignored;
    }
    if packet[0] as int / 16 != 4 {
      return Ignored;
    }
    if |packet| <= 9 {
      return Panic;
    }
    if packet[9] != 1 {
      return Ignored;
    }
    if |packet| < 20 {
      return Panic;
    }
    if packet[payloadStart] != 8 || packet[payloadStart + 1] != 0 {
      return Ignored;
    }
    if |packet| > REPLY_BYTES {
      return Ignored;
    }
    var answer := BuildReply(packet);
    EchoFacts(packet);
    OnesSumIs(answer[payloadStart..]);
    OnesSumIs(answer[..payloadStart]);
    return Reply(answer);
  }

  lemma EchoFacts(packet: seq<u8>)
    requires packet != [] && IsEchoRequest(packet)
    ensures IsEchoHeader(packet) ==> AnswersTo(packet, EchoReply(packet))
    ensures HeaderBytes(packet) >= 12 ==> Folded(WordSum(EchoReply(packet)[HeaderBytes(packet)..])) == ONES
    ensures HeaderBytes(packet) >= 12 ==> Folded(WordSum(EchoReply(packet)[..HeaderBytes(packet)])) == ONES
  {
    if HeaderBytes(packet) >= 12 {
      EchoCancels(Turned(packet), |packet|, HeaderBytes(packet));
    }
    if HeaderBytes(packet) >= 20 {
      EchoAnswers(packet);
    }
  }

  /** The reply to a packet that passed all checks. */
  method BuildReply(packet: seq<u8>) returns (answer: seq<u8>)
    requires packet != [] && IsEchoRequest(packet)
    ensures answer == EchoReply(packet)
  {
    var payloadStart := HeaderBytes(packet);
    var reply := CopySwapped(packet);
    TurnedIs(packet, reply[..]);
    ghost var copied := reply[..];
    reply[payloadStart] := 0;
    assert reply[..] == copied[payloadStart := 0];
    FillChecksums(reply, |packet|, payloadStart);
    return reply[..|packet|];
  }

  /** The packet in a reply buffer, with source and destination exchanged. */
  method CopySwapped(packet: seq<u8>) returns (reply: array<u8>)
    requires 20 <= |packet| <= REPLY_BYTES
    ensures fresh(reply) && reply.Length == REPLY_BYTES
    ensures forall i :: 0 <= i < |packet| && !(12 <= i < 20) ==> reply[i] == packet[i]
    ensures forall i :: 12 <= i < 16 ==> reply[i] == packet[i + 4]
    ensures forall i :: 16 <= i < 20 ==> reply[i] == packet[i - 4]
    ensures forall i :: |packet| <= i < REPLY_BYTES ==> reply[i] == 0
  {
    reply := new u8[REPLY_BYTES](_ => 0);
    forall i | 0 <= i < |packet| {
      reply[i] := packet[i];
    }
    forall i | 0 <= i < 4 {
      reply[12 + i] := packet[16 + i];
    }
    forall i | 0 <= i < 4 {
      reply[16 + i] := packet[12 + i];
    }
  }

  /** Zeroes both checksum fields and stores the checksums, the payload's first. */
  method FillChecksums(reply: array<u8>, n: nat, h: nat)
    requires h + 8 <= n <= reply.Length == REPLY_BYTES && n >= 20
    modifies reply
    ensures reply[..] == Summed(Summed(old(reply[..]), h, n, h + 2), 0, h, 10)
  {
    StoreChecksum(reply, h, n, h + 2);
    StoreChecksum(reply, 0, h, 10);
  }

  /** Zeroes the field at `at` and stores the checksum of the bytes from `lo` to `hi` there. */
  method StoreChecksum(reply: array<u8>, lo: nat, hi: nat, at: nat)
    requires lo <= hi <= reply.Length == REPLY_BYTES && at + 1 < reply.Length
    modifies reply
    ensures reply[..] == Summed(old(reply[..]), lo, hi, at)
  {
    StoreWord(reply, at, 0);
    ghost var zeroed := reply[..];
    assert zeroed[lo..hi] == reply[lo..hi];
    var checksum := ComputeChecksum(reply[lo..hi]);
    StoreWord(reply, at, checksum);
  }

  /** A stored checksum makes that of its region zero. */
  lemma SummedCancels(s: seq<u8>, lo: nat, hi: nat, k: nat)
    requires k % 2 == 0 && lo + k + 1 < hi <= |s|
    ensures Folded(WordSum(Summed(s, lo, hi, lo + k)[lo..hi])) == ONES
  {
    var zeroed := Cleared(s, lo + k);
    var c := ChecksumOf(zeroed[lo..hi]);
    StoredInside(zeroed, lo, hi, k, c);
    RegionCancels(zeroed[lo..hi], k, c, Summed(s, lo, hi, lo + k)[lo..hi]);
  }

  /** A word stored inside a region, seen from the region. */
  lemma StoredInside(s: seq<u8>, lo: nat, hi: nat, k: nat, w: u16)
    requires lo + k + 1 < hi <= |s|
    ensures WithWord(s, lo + k, w)[lo..hi] == WithWord(s[lo..hi], k, w)
  {
    var a, b := WithWord(s, lo + k, w)[lo..hi], WithWord(s[lo..hi], k, w);
    assert |a| == |b|;
    forall i | 0 <= i < |a|
      ensures a[i] == b[i]
    {
    }
  }

  lemma RegionCancels(before: seq<u8>, k: nat, c: u16, after: seq<u8>)
    requires k % 2 == 0 && k + 1 < |before| && before[k] == 0 && before[k + 1] == 0
    requires c == ChecksumOf(before) && after == WithWord(before, k, c)
    ensures Folded(WordSum(after)) == ONES
  {
    ChecksumCancels(before, k);
  }

  /** From twelve bytes of header on, the two fields lie in their regions, and the second store does not meet the first. */
  lemma EchoCancels(s: seq<u8>, n: nat, h: nat)
    requires h % 4 == 0 && 12 <= h && h + 8 <= n <= |s|
    ensures var r := Summed(Summed(s, h, n, h + 2), 0, h, 10)[..n];
      Folded(WordSum(r[h..])) == ONES && Folded(WordSum(r[..h])) == ONES
  {
    var first := Summed(s, h, n, h + 2);
    var both := Summed(first, 0, h, 10);
    SummedCancels(s, h, n, 2);
    SummedCancels(first, 0, h, 10);
    assert both[..n][h..] == first[h..n];
    assert both[..n][..h] == both[0..h];
  }

  /** What the reply buffer holds before the checksums. */
  lemma TurnedIs(packet: seq<u8>, copied: seq<u8>)
    requires 20 <= |packet| <= REPLY_BYTES == |copied| && HeaderBytes(packet) < |packet|
    requires forall i :: 0 <= i < |packet| && !(12 <= i < 20) ==> copied[i] == packet[i]
    requires forall i :: 12 <= i < 16 ==> copied[i] == packet[i + 4]
    requires forall i :: 16 <= i < 20 ==> copied[i] == packet[i - 4]
    requires forall i :: |packet| <= i < REPLY_BYTES ==> copied[i] == 0
    ensures copied[HeaderBytes(packet) := 0] == Turned(packet)
  {
  }

  /** With a full header the answer is the request but for addresses, type and checksums. */
  lemma EchoAnswers(packet: seq<u8>)
    requires IsEchoHeader(packet)
    ensures AnswersTo(packet, EchoReply(packet))
  {
  }

  method StoreWord(a: array<u8>, at: nat, w: u16)
    requires at + 1 < a.Length
    modifies a
    ensures a[..] == WithWord(old(a[..]), at, w)
  {
    a[at] := (w / 256) as u8;
    a[at + 1] := (w % 256) as u8;
  }

  /** Swapping the addresses does not change the header sum, so the new header checksum agrees with a valid old one. */
  lemma SwapKeepsChecksum(packet: seq<u8>, reply: seq<u8>)
    requires IsEchoHeader(packet) && AnswersTo(packet, reply)
    requires Folded(WordSum(packet[..HeaderBytes(packet)])) == ONES
    requires Folded(WordSum(reply[..HeaderBytes(packet)])) == ONES
    ensures (Word(reply[10], reply[11]) - Word(packet[10], packet[11])) % ONES == 0
  {
    var h := HeaderBytes(packet);
    var a, b := packet[..h], reply[..h];
    HeaderSum(a);
    HeaderSum(b);
    HeadersAgree(packet, reply, a, b, h);
    FieldsAgree(HeaderRest(b), Word(a[10], a[11]), Word(b[10], b[11]));
  }

  /** The header's sum without its checksum field. */
  function HeaderRest(a: seq<u8>): nat
    requires |a| >= 20
  {
    WordSum(a[..10]) + Word(a[12], a[13]) + Word(a[14], a[15]) + Word(a[16], a[17]) + Word(a[18], a[19]) + WordSum(a[20..])
  }

  lemma HeadersAgree(packet: seq<u8>, reply: seq<u8>, a: seq<u8>, b: seq<u8>, h: nat)
    requires IsEchoHeader(packet) && AnswersTo(packet, reply) && h == HeaderBytes(packet)
    requires a == packet[..h] && b == reply[..h]
    ensures HeaderRest(a) == HeaderRest(b)
  {
    assert a[20..] == b[20..];
    assert a[..10] == b[..10];
    assert b[12] == a[16] && b[13] == a[17] && b[14] == a[18] && b[15] == a[19];
    assert b[16] == a[12] && b[17] == a[13] && b[18] == a[14] && b[19] == a[15];
  }

  lemma FieldsAgree(rest: nat, x: nat, y: nat)
    requires Folded(rest + x) == ONES && Folded(rest + y) == ONES
    ensures (y - x) % ONES == 0
  {
    var i, j := (rest + x - 1) / ONES, (rest + y - 1) / ONES;
    assert rest + x == ONES * i + ONES && rest + y == ONES * j + ONES;
    assert y - x == ONES * (j - i);
  }

  /** The header's sum taken apart at the checksum and the addresses. */
  lemma HeaderSum(a: seq<u8>)
    requires |a| >= 20
    ensures WordSum(a) == HeaderRest(a) + Word(a[10], a[11])
  {
    assert a == a[..10] + a[10..];
    AppendWord(a[..10], a[10..]);
    DropWord(a, 10);
    DropWord(a, 12);
    DropWord(a, 14);
    DropWord(a, 16);
    DropWord(a, 18);
  }

  lemma DropWord(a: seq<u8>, i: nat)
    requires i + 2 <= |a|
    ensures WordSum(a[i..]) == Word(a[i], a[i + 1]) + WordSum(a[i + 2..])
  {
    assert a[i..][2..] == a[i + 2..];
  }
}
