/**
 A partition as a bounded view of a block device: kernel/src/blockdev/partition/mod.rs over the
 all-or-nothing reads of kernel/src/blockdev/usb.rs and the short reads of blockdev/ahci/mod.rs.
*/
module Partitions {
  import opened Prelude

  const BLOCK_SIZE := 512
  const MOD64 := 0x1_0000_0000_0000_0000
  const MAX_I64 := 0x7fff_ffff_ffff_ffff

  type u64 = x: int | 0 <= x < 0x1_0000_0000_0000_0000
  type i64 = x: int | -0x8000_0000_0000_0000 <= x <= 0x7fff_ffff_ffff_ffff

  type Block = b: seq<u8> | |b| == 512 witness seq(512, _ => 0)

  datatype Kind = Usb | Ahci

  /** What a USB device does at some moment; it may be unplugged and come back to a failing transfer. */
  datatype Line = Online | Unplugged | Failing

  datatype IoError = Offline | OutOfRange | ReadFailed | InvalidInput

  datatype SeekFrom = Start(offset: u64) | End(delta: i64) | Current(delta: i64)

  function AsI64(x: u64): i64 { if x > MAX_I64 then x - MOD64 else x }

  function Saturated(x: int): i64 {
    if x > MAX_I64 then MAX_I64 else if x < -MAX_I64 - 1 then -MAX_I64 - 1 else x
  }

  function Min(x: nat, y: nat): nat { if x < y then x else y }

  class BlockDevice {
    const kind: Kind
    const disk: seq<u8>
    const line: nat -> Line
    const beyond: nat -> Block
    var position: nat
    var clock: nat

    /** Whole blocks, and a size that fits the signed offsets of the seek interface. */
    ghost predicate Sized() { |disk| % BLOCK_SIZE == 0 && |disk| <= MAX_I64 }

    constructor (kind: Kind, disk: seq<u8>, line: nat -> Line, beyond: nat -> Block)
      requires |disk| % BLOCK_SIZE == 0 && |disk| <= MAX_I64
      ensures Sized() && this.kind == kind && this.disk == disk && position == 0
    {
      this.kind, this.disk, this.line, this.beyond := kind, disk, line, beyond;
      position, clock := 0, 0;
    }

    method Now() returns (l: Line)
      modifies this`clock
      ensures l == line(old(clock)) && clock == old(clock) + 1
    {
      l := line(clock);
      clock := clock + 1;
    }

    /** The contents of one block; what an AHCI controller returns past the end is anybody's guess. */
    function BlockAt(lba: nat): Block {
      if (lba + 1) * BLOCK_SIZE <= |disk| then disk[lba * BLOCK_SIZE..(lba + 1) * BLOCK_SIZE] else beyond(lba)
    }

    /** Reads everything asked for or fails; only success moves the position. */
    method ReadBytes(output: array<u8>, lo: nat, hi: nat) returns (r: Result<nat, IoError>)
      requires Sized() && lo <= hi <= output.Length
      modifies this`position, this`clock, output
      ensures r.Ok? ==> r.value == hi - lo && old(position) + r.value <= |disk|
      ensures r.Ok? ==> position == old(position) + r.value && output[lo..hi] == disk[old(position)..position]
      ensures r.Err? ==> position == old(position) && PartlyRead(old(output[..]), output[..], lo, hi, disk, position)
      ensures output[..lo] == old(output[..lo]) && output[hi..] == old(output[hi..])
    {
      FilledNothing(output[..], lo, hi, disk, position);
      var l := Now();
      if l.Unplugged? {
        return Err(Offline);
      }
      var end := position + (hi - lo);
      if end >= MOD64 || end > |disk| {
        return Err(OutOfRange);
      }
      var done := 0;
      while done < hi - lo
        invariant 0 <= done <= hi - lo && position == old(position)
        invariant output[lo..lo + done] == disk[position..position + done]
        invariant Filled(old(output[..]), output[..], lo, hi, disk, position, done)
        invariant done == 0 || done == hi - lo || (position + done) % BLOCK_SIZE == 0
        invariant output[..lo] == old(output[..lo]) && output[hi..] == old(output[hi..])
        decreases hi - lo - done
      {
        var taken := NextSector(output, lo, hi, done, old(output[..]));
        if taken.Err? {
          FilledPart(old(output[..]), output[..], lo, hi, disk, position, done);
          return Err(taken.error);
        }
        done := done + taken.value;
      }
      position := end;
      return Ok(done);
    }

    /** One turn of the loop over the sectors. */
    method NextSector(output: array<u8>, lo: nat, hi: nat, done: nat, ghost was: seq<u8>) returns (r: Result<nat, IoError>)
      requires Sized() && lo + done < hi <= output.Length && position + (hi - lo) <= |disk|
      requires output[lo..lo + done] == disk[position..position + done]
      requires Filled(was, output[..], lo, hi, disk, position, done)
      modifies this`clock, output
      ensures Filled(was, output[..], lo, hi, disk, position, if r.Ok? then done + r.value else done)
      ensures r.Ok? ==> done + r.value == hi - lo || (position + done + r.value) % BLOCK_SIZE == 0
      ensures r.Ok? ==> 0 < r.value <= hi - lo - done && output[lo..lo + done + r.value] == disk[position..position + done + r.value]
      ensures output[..lo] == old(output[..lo]) && output[hi..] == old(output[hi..])
    {
      var l := Now();
      if l.Unplugged? {
        return Err(Offline);
      }
      var offset := position + done;
      var take := Min(BLOCK_SIZE - offset % BLOCK_SIZE, hi - lo - done);
      l := Now();
      if !l.Online? {
        return Err(if l.Unplugged? then Offline else ReadFailed);
      }
      ghost var before := output[..];
      CopySector(output, lo + done, offset, take);
      Extended(before, output[..], lo, done, take, hi, disk, position);
      FilledMore(was, before, output[..], lo, hi, disk, position, done, take);
      ToSectorEnd(offset, hi - lo - done, take);
      return Ok(take);
    }

    /** Copies the wanted part of one sector. */
    method CopySector(output: array<u8>, at: nat, offset: nat, take: nat)
      requires Sized() && at + take <= output.Length && 0 < take && offset + take <= |disk|
      requires offset % BLOCK_SIZE + take <= BLOCK_SIZE
      modifies output
      ensures output[at..at + take] == disk[offset..offset + take]
      ensures output[..at] == old(output[..at]) && output[at + take..] == old(output[at + take..])
    {
      BlockSlice(disk, offset, take);
      var sector := BlockAt(offset / BLOCK_SIZE);
      var within := offset % BLOCK_SIZE;
      CopyOut(output, at, sector[within..within + take]);
    }

    /** Reads at most to the end of the current sector, and never fails. */
    method ReadSector(output: array<u8>, lo: nat, hi: nat) returns (n: nat)
      requires Sized() && lo <= hi <= output.Length
      modifies this`position, output
      ensures n == (if hi - lo < 512 - old(position) % 512 then hi - lo else 512 - old(position) % 512)
      ensures position == old(position) + n
      ensures position <= |disk| ==> output[lo..lo + n] == disk[old(position)..position]
      ensures output[..lo] == old(output[..lo]) && output[lo + n..] == old(output[lo + n..])
    {
      var sector := position / BLOCK_SIZE;
      var buf2 := BlockAt(sector);
      var t1 := position % BLOCK_SIZE;
      n := Min(hi - lo, BLOCK_SIZE - t1);
      if 0 < n && position + n <= |disk| {
        BlockSlice(disk, position, n);
      }
      CopyOut(output, lo, buf2[t1..t1 + n]);
      position := position + n;
    }

    method Read(output: array<u8>, lo: nat, hi: nat) returns (r: Result<nat, IoError>)
      requires Sized() && lo <= hi <= output.Length
      modifies this`position, this`clock, output
      ensures r.Err? ==> kind.Usb? && position == old(position) && PartlyRead(old(output[..]), output[..], lo, hi, disk, position)
      ensures r.Ok? ==> r.value <= hi - lo && position == old(position) + r.value
      ensures r.Ok? && kind.Usb? ==> r.value == hi - lo && position <= |disk|
      ensures kind.Ahci? ==> r == Ok(if hi - lo < 512 - old(position) % 512 then hi - lo else 512 - old(position) % 512)
      ensures r.Ok? && lo < hi ==> r.value > 0
      ensures r.Ok? && position <= |disk| ==> output[lo..lo + r.value] == disk[old(position)..position]
      ensures output[..lo] == old(output[..lo]) && output[hi..] == old(output[hi..])
    {
      match kind
      case Usb =>
        r := ReadBytes(output, lo, hi);
      case Ahci =>
        ghost var tail := output[hi..];
        var n := ReadSector(output, lo, hi);
        assert output[hi..] == output[lo + n..][hi - lo - n..] == tail;
        r := Ok(n);
    }

    /** Accepts positions within the device, the end included; a refused seek changes nothing. */
    method Seek(pos: SeekFrom) returns (r: Result<nat, IoError>)
      requires Sized() && position <= |disk|
      modifies this`position, this`clock
      ensures r == Err(Offline) <==> kind.Usb? && line(old(clock)).Unplugged?
      ensures r == Err(Offline) || (r.Ok? <==> 0 <= Target(pos, old(position), |disk|) <= |disk|)
      ensures r.Ok? ==> r.value == position == Target(pos, old(position), |disk|)
      ensures r.Err? ==> position == old(position) && (r.error.Offline? || r.error.OutOfRange?)
    {
      if kind.Usb? {
        var l := Now();
        if l.Unplugged? {
          return Err(Offline);
        }
      }
      var next := match pos
        case Start(value) => AsI64(value)
        case End(value) => Saturated(|disk| + value)
        case Current(value) => Saturated(position + value);
      if next < 0 || next > |disk| {
        return Err(OutOfRange);
      }
      position := next;
      return Ok(position);
    }

    /**
     Reads until the buffer is full: the sector-bounded reads are put together again.  A failed read
     counts as the end of the file, so a USB device that fails leaves the position and perhaps the
     first bytes of the buffer, and nobody is told.
    */
    method ReadExact(output: array<u8>)
      requires Sized()
      modifies this`position, this`clock, output
      ensures kind.Ahci? ==> position == old(position) + output.Length
      ensures position == old(position) + output.Length && position <= |disk| ==> output[..] == disk[old(position)..position]
      ensures kind.Usb? && position == old(position) + output.Length ==> position <= |disk| || output.Length == 0
      ensures position != old(position) + output.Length ==>
        kind.Usb? && position == old(position) && PartlyRead(old(output[..]), output[..], 0, output.Length, disk, position)
    {
      var done := 0;
      while done < output.Length
        invariant 0 <= done <= output.Length && position == old(position) + done
        invariant position <= |disk| ==> output[..done] == disk[old(position)..position]
        invariant kind.Usb? ==> (done == 0 && output[..] == old(output[..])) || (done == output.Length && position <= |disk|)
        decreases output.Length - done
      {
        ghost var was, from := output[..done], position;
        var r := Read(output, done, output.Length);
        var n := if r.Ok? then r.value else 0;
        if n == 0 {
          return;
        }
        assert output[..done] == was;
        assert output[..done + n] == was + output[done..done + n];
        assert position <= |disk| ==> disk[old(position)..position] == disk[old(position)..from] + disk[from..position];
        done := done + n;
      }
      assert output[..done] == output[..];
    }
  }

  /** The first `done` bytes from `lo` on were read from the disk, and the rest of the buffer is as it was. */
  ghost predicate Filled(was: seq<u8>, now: seq<u8>, lo: nat, hi: nat, disk: seq<u8>, from: nat, done: nat) {
    && |now| == |was| && lo + done <= hi <= |was|
    && (forall i :: 0 <= i < |was| && !(lo <= i < lo + done) ==> now[i] == was[i])
    && (done == 0 || (from + done <= |disk| && now[lo..lo + done] == disk[from..from + done]))
  }

  /** A read that failed: some whole sectors of it may have arrived. */
  ghost predicate PartlyRead(was: seq<u8>, now: seq<u8>, lo: nat, hi: nat, disk: seq<u8>, from: nat) {
    exists done: nat :: Filled(was, now, lo, hi, disk, from, done) && (done == 0 || (done < hi - lo && (from + done) % BLOCK_SIZE == 0))
  }

  lemma ToSectorEnd(offset: nat, rest: nat, take: nat)
    requires take == Min(BLOCK_SIZE - offset % BLOCK_SIZE, rest)
    ensures take == rest || (offset + take) % BLOCK_SIZE == 0
  {
  }

  lemma FilledNothing(s: seq<u8>, lo: nat, hi: nat, disk: seq<u8>, from: nat)
    requires lo <= hi <= |s|
    ensures Filled(s, s, lo, hi, disk, from, 0) && PartlyRead(s, s, lo, hi, disk, from)
  {
    FilledPart(s, s, lo, hi, disk, from, 0);
  }

  lemma FilledPart(was: seq<u8>, now: seq<u8>, lo: nat, hi: nat, disk: seq<u8>, from: nat, done: nat)
    requires Filled(was, now, lo, hi, disk, from, done) && (done == 0 || (done < hi - lo && (from + done) % BLOCK_SIZE == 0))
    ensures PartlyRead(was, now, lo, hi, disk, from)
  {
  }

  lemma FilledMore(was: seq<u8>, before: seq<u8>, now: seq<u8>, lo: nat, hi: nat, disk: seq<u8>, from: nat, done: nat, take: nat)
    requires Filled(was, before, lo, hi, disk, from, done) && |now| == |was| && lo + done + take <= hi && 0 < take
    requires from + done + take <= |disk| && now[lo..lo + done + take] == disk[from..from + done + take]
    requires now[..lo + done] == before[..lo + done] && now[lo + done + take..] == before[lo + done + take..]
    ensures Filled(was, now, lo, hi, disk, from, done + take)
  {
    forall i | 0 <= i < |was| && !(lo <= i < lo + done + take)
      ensures now[i] == was[i]
    {
      if i < lo {
        assert now[i] == now[..lo + done][i];
        assert before[i] == before[..lo + done][i];
      } else {
        assert now[i] == now[lo + done + take..][i - (lo + done + take)];
        assert before[i] == before[lo + done + take..][i - (lo + done + take)];
      }
    }
  }

  method CopyOut(output: array<u8>, at: nat, s: seq<u8>)
    requires at + |s| <= output.Length
    modifies output
    ensures output[at..at + |s|] == s
    ensures output[..at] == old(output[..at]) && output[at + |s|..] == old(output[at + |s|..])
  {
    forall i | 0 <= i < |s| {
      output[at + i] := s[i];
    }
  }

  /** A buffer holding `done` bytes from `lo` on gets `take` more; below `lo` and from `hi` on it is the same. */
  lemma Extended(before: seq<u8>, after: seq<u8>, lo: nat, done: nat, take: nat, hi: nat, disk: seq<u8>, from: nat)
    requires lo + done + take <= hi <= |before| == |after| && from + done + take <= |disk|
    requires before[lo..lo + done] == disk[from..from + done]
    requires after[lo + done..lo + done + take] == disk[from + done..from + done + take]
    requires after[..lo + done] == before[..lo + done] && after[lo + done + take..] == before[lo + done + take..]
    ensures after[lo..lo + done + take] == disk[from..from + done + take]
    ensures after[..lo] == before[..lo] && after[hi..] == before[hi..]
  {
    SubSlice(before, 0, lo + done, lo, lo + done);
    SubSlice(after, 0, lo + done, lo, lo + done);
    assert after[lo..lo + done + take] == after[lo..lo + done] + after[lo + done..lo + done + take];
    assert disk[from..from + done + take] == disk[from..from + done] + disk[from + done..from + done + take];
    var k := lo + done + take;
    assert after[hi..] == after[k..][hi - k..] && before[hi..] == before[k..][hi - k..];
    assert after[..lo] == after[..lo + done][..lo] && before[..lo] == before[..lo + done][..lo];
  }

  /** The bytes from `offset` on, within its block. */
  lemma BlockSlice(disk: seq<u8>, offset: nat, n: nat)
    requires |disk| % BLOCK_SIZE == 0 && offset % BLOCK_SIZE + n <= BLOCK_SIZE && offset + n <= |disk| && n > 0
    ensures var lba := offset / BLOCK_SIZE; var within := offset % BLOCK_SIZE;
      (lba + 1) * BLOCK_SIZE <= |disk|
      && disk[lba * BLOCK_SIZE..(lba + 1) * BLOCK_SIZE][within..within + n] == disk[offset..offset + n]
  {
  }

  /** A view of the device's bytes from `start` to `end`; the table entry they come from lies within the device. */
  class Partition {
    const device: BlockDevice
    const start: u64
    const end: u64
    var position: nat

    ghost predicate Valid()
      reads this, device
    {
      && device.Sized() && start <= end <= |device.disk|
      && position <= end - start && device.position == start + position
    }

    /** What the file system sees. */
    ghost function View(): seq<u8>
      requires start <= end <= |device.disk|
    {
      device.disk[start..end]
    }

    /** A fresh device moved to the start of the partition. */
    constructor (device: BlockDevice, start: u64, end: u64)
      requires device.Sized() && start <= end <= |device.disk| && device.position == start
      ensures Valid() && position == 0 && this.device == device && this.start == start && this.end == end
    {
      this.device, this.start, this.end := device, start, end;
      position := 0;
    }

    /** Reads what the device gives, never past the end of the partition. */
    method Read(output: array<u8>, lo: nat, hi: nat) returns (r: Result<nat, IoError>)
      requires Valid() && lo <= hi <= output.Length
      modifies this`position, device`position, device`clock, output
      ensures Valid()
      ensures r.Err? ==> device.kind.Usb? && position == old(position)
      ensures r.Ok? ==> r.value <= hi - lo && position == old(position) + r.value
      ensures r.Ok? ==> output[lo..lo + r.value] == View()[old(position)..position]
      ensures r == Ok(0) ==> lo == hi || old(position) == |View()|
      ensures r.Ok? && device.kind.Usb? ==> r.value == if hi - lo < |View()| - old(position) then hi - lo else |View()| - old(position)
      ensures device.kind.Ahci? ==> r.Ok?
      ensures device.kind.Ahci? ==> var here := old(device.position) % 512;
        && r.value <= 512 - here && r.value <= |View()| - old(position)
        && (r.value == hi - lo || r.value == 512 - here || r.value == |View()| - old(position))
      ensures output[..lo] == old(output[..lo])
    {
      var remaining: nat := end - (start + position);
      var readLen := Min(hi - lo, remaining);
      ghost var from := device.position;
      r := device.Read(output, lo, lo + readLen);
      if r.Ok? {
        SubSlice(device.disk, start, end, position, position + r.value);
        position := position + r.value;
      }
    }

    /** Accepts positions within the partition, its end included; a refused or failed seek changes nothing. */
    method Seek(pos: SeekFrom) returns (r: Result<nat, IoError>)
      requires Valid()
      modifies this`position, device`position, device`clock
      ensures Valid()
      ensures r.Err? ==> position == old(position)
      ensures r.Ok? ==> r.value == position == Target(pos, old(position), end - start)
      ensures !(0 <= Target(pos, old(position), end - start) <= end - start) <==> r == Err(InvalidInput)
      ensures device.kind.Ahci? ==> (r.Ok? <==> 0 <= Target(pos, old(position), end - start) <= end - start)
    {
      var next := Target(pos, position, end - start);
      var length := end - start;
      if next < 0 || next > length {
        return Err(InvalidInput);
      }
      var absolute: u64 := start + next;
      var moved := device.Seek(Start(absolute));
      if moved.Err? {
        return Err(moved.error);
      }
      position := next;
      return Ok(next);
    }
  }

  /** Where a seek means to go; 128-bit arithmetic does not overflow. */
  function Target(pos: SeekFrom, position: nat, length: nat): int {
    match pos
    case Start(offset) => offset
    case End(delta) => length + delta
    case Current(delta) => position + delta
  }
}
