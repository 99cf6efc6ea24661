/**
 The physical-page allocator of kernel/src/mm/page_alloc.rs: first fit over the free bits,
 single pages and aligned runs.  Addresses are byte addresses; a page is 4096 bytes.
*/
module PageAllocs {
  import opened Prelude
  import opened PageMans

  const PAGE_SIZE := 4096

  predicate IsPowerOfTwo(n: nat)
  {
    n == 1 || (n > 1 && n % 2 == 0 && IsPowerOfTwo(n / 2))
  }

  function TwoTo(k: nat): (n: nat)
    ensures n >= 1
  {
    if k == 0 then 1 else TwoTo(k - 1) + TwoTo(k - 1)
  }

  lemma Doubled(m: nat)
    ensures (m + m) % 2 == 0 && (m + m) / 2 == m
  {
  }

  lemma {:induction false} TwoToPasses(k: nat)
    ensures IsPowerOfTwo(TwoTo(k))
  {
    if k > 0 {
      TwoToPasses(k - 1);
      Doubled(TwoTo(k - 1));
    }
  }

  lemma {:induction false} OnlyTwoToPasses(n: nat) returns (k: nat)
    requires IsPowerOfTwo(n)
    ensures n == TwoTo(k)
  {
    if n == 1 {
      k := 0;
    } else {
      k := OnlyTwoToPasses(n / 2);
      k := k + 1;
    }
  }

  /** The powers of two and nothing else. */
  lemma PowersOfTwo(n: nat)
    ensures IsPowerOfTwo(n) <==> exists k: nat :: n == TwoTo(k)
  {
    if IsPowerOfTwo(n) {
      var k := OnlyTwoToPasses(n);
    }
    forall k: nat | n == TwoTo(k)
      ensures IsPowerOfTwo(n)
    {
      TwoToPasses(k);
    }
  }

  predicate FreeRun(bits: seq<bool>, start: nat, cnt: nat)
  {
    start + cnt <= |bits| && forall i :: start <= i < start + cnt ==> bits[i]
  }

  predicate AlignedRun(bits: seq<bool>, start: nat, cnt: nat, alignment: nat)
  {
    FreeRun(bits, start, cnt) && alignment > 0 && (start * 4096) % alignment == 0
  }

  /** The least start of an aligned free run. */
  ghost predicate LeastRun(bits: seq<bool>, start: nat, cnt: nat, alignment: nat)
  {
    AlignedRun(bits, start, cnt, alignment) && forall s: nat :: s < start ==> !AlignedRun(bits, s, cnt, alignment)
  }

  predicate GoodRequest(cnt: nat, alignment: nat)
  {
    cnt != 0 && IsPowerOfTwo(alignment) && alignment >= 4096 && alignment % 4096 == 0
  }

  /** `bits` with positions l..r overwritten by `value`. */
  function Fill(bits: seq<bool>, l: nat, r: nat, value: bool): (s: seq<bool>)
    ensures |s| == |bits|
  {
    seq(|bits|, i requires 0 <= i < |bits| => if l <= i < r then value else bits[i])
  }

  /** Returning a run that was free when it was taken restores the bitmap exactly. */
  lemma TakeThenReturn(bits: seq<bool>, start: nat, cnt: nat)
    requires FreeRun(bits, start, cnt)
    ensures Fill(Fill(bits, start, start + cnt, false), start, start + cnt, true) == bits
  {
    forall i | 0 <= i < |bits|
      ensures Fill(Fill(bits, start, start + cnt, false), start, start + cnt, true)[i] == bits[i]
    {
    }
  }

  /** How many pages from `l` up to `r` are free already. */
  function FreePages(bits: seq<bool>, l: nat, r: nat): nat {
    if r <= l then 0 else FreePages(bits, l, r - 1) + if r - 1 < |bits| && bits[r - 1] then 1 else 0
  }

  lemma {:induction false} NoneFree(bits: seq<bool>, l: nat, r: nat)
    requires forall f: nat :: l <= f < r && f < |bits| ==> !bits[f]
    ensures FreePages(bits, l, r) == 0
    decreases r
  {
    if l < r {
      NoneFree(bits, l, r - 1);
    }
  }

  lemma {:induction false} NoMorePages(bits: seq<bool>, l: nat, m: nat, r: nat)
    requires l <= m <= r && (m == r || |bits| <= m)
    ensures FreePages(bits, l, r) == FreePages(bits, l, m)
    decreases r
  {
    if m < r {
      NoMorePages(bits, l, m, r - 1);
    }
  }

  /** Before page `i`: `size` free pages end there, no more unless that is enough, and no aligned run was passed. */
  ghost predicate Scanned(bits: seq<bool>, i: nat, size: nat, cnt: nat, alignment: nat) {
    && size <= i <= |bits|
    && (forall f: nat :: i - size <= f < i ==> bits[f])
    && (size + 1 < cnt ==> i == size || !bits[i - size - 1])
    && (forall s: nat :: s + cnt <= i ==> !AlignedRun(bits, s, cnt, alignment))
  }

  /** A complete aligned run ending at page `i` is the first. */
  lemma FirstFit(bits: seq<bool>, i: nat, cnt: nat, alignment: nat)
    requires cnt > 0 && i + 1 >= cnt && Scanned(bits, i, cnt - 1, cnt, alignment) && AlignedRun(bits, i + 1 - cnt, cnt, alignment)
    ensures LeastRun(bits, i + 1 - cnt, cnt, alignment)
  {
  }

  /** One page further: the run grows or ends, and may be complete. */
  lemma ScanOne(bits: seq<bool>, i: nat, size: nat, cnt: nat, alignment: nat)
    requires Scanned(bits, i, size, cnt, alignment) && i < |bits| && size < cnt
    ensures !bits[i] ==> Scanned(bits, i + 1, 0, cnt, alignment)
    ensures bits[i] && size + 1 < cnt ==> Scanned(bits, i + 1, size + 1, cnt, alignment)
    ensures bits[i] && size + 1 == cnt ==> FreeRun(bits, i + 1 - cnt, cnt)
    ensures bits[i] && size + 1 == cnt && !AlignedRun(bits, i + 1 - cnt, cnt, alignment) ==> Scanned(bits, i + 1, size, cnt, alignment)
  {
    forall s: nat | s + cnt <= i + 1 && !(bits[i] && size + 1 == cnt && s == i + 1 - cnt)
      ensures !AlignedRun(bits, s, cnt, alignment)
    {
      if s + cnt == i + 1 {
        assert !bits[i] || !bits[i - size - 1];
      }
    }
  }

  /** Page numbers are aligned exactly as their byte addresses are. */
  lemma PageAlignment(start: nat, alignment: nat)
    requires alignment >= PAGE_SIZE && alignment % PAGE_SIZE == 0
    ensures start % (alignment / PAGE_SIZE) == 0 <==> (start * PAGE_SIZE) % alignment == 0
  {
    var a := alignment / PAGE_SIZE;
    assert alignment == a * PAGE_SIZE && a > 0;
    var q, r := start / a, start % a;
    assert start == q * a + r;
    assert start * PAGE_SIZE == q * alignment + r * PAGE_SIZE by {
      assert start * PAGE_SIZE == (q * a + r) * PAGE_SIZE;
      assert q * alignment == q * (a * PAGE_SIZE) == (q * a) * PAGE_SIZE;
    }
    assert 0 <= r * PAGE_SIZE < alignment;
    QuotientUnique(start * PAGE_SIZE, alignment, q, r * PAGE_SIZE);
  }

  lemma MultiplyMonotone(a: nat, b: nat, d: nat)
    requires a <= b
    ensures a * d <= b * d
  {
  }

  lemma QuotientUnique(n: nat, d: nat, q: nat, r: nat)
    requires d > 0 && n == q * d + r && r < d
    ensures n % d == r
  {
    var q2 := n / d;
    assert n == d * q2 + n % d;
    assert d * q2 == q2 * d;
    assert (q2 + 1) * d == q2 * d + d;
    assert (q + 1) * d == q * d + d;
    if q > q2 {
      MultiplyMonotone(q2 + 1, q, d);
    } else if q < q2 {
      MultiplyMonotone(q + 1, q2, d);
    }
  }

  class PageAlloc {
    const man: PageMan
    /** How many times the allocator reported a page that was freed twice. */
    var warnings: nat

    constructor (man: PageMan)
      ensures this.man == man && warnings == 0
    {
      this.man := man;
      warnings := 0;
    }

    /** The first free page, or nothing when no page is free. */
    method AllocPhysicalPage() returns (r: Option<nat>)
      modifies man.words
      ensures r.None? ==> man.Bits() == old(man.Bits()) && forall f :: 0 <= f < |man.Bits()| ==> !man.Bits()[f]
      ensures r.Some? ==>
        && r.value < |old(man.Bits())| && old(man.Bits())[r.value]
        && (forall f :: 0 <= f < r.value ==> !old(man.Bits())[f])
        && man.Bits() == old(man.Bits())[r.value := false]
    {
      var limit := man.Len();
      for i := 0 to limit
        invariant man.Bits() == old(man.Bits())
        invariant forall f :: 0 <= f < i ==> !man.Bits()[f]
      {
        var free := man.Get(i);
        if free {
          man.Set(i, false);
          return Some(i);
        }
      }
      r := None;
    }

    method DeallocPhysicalPage(index: nat)
      requires index < |man.Bits()|
      modifies man.words, this`warnings
      ensures man.Bits() == old(man.Bits())[index := true]
      ensures warnings == old(warnings) + if old(man.Bits())[index] then 1 else 0
    {
      var free := man.Get(index);
      if free {
        warnings := warnings + 1;
      }
      man.Set(index, true);
    }

    /** The least aligned start of a free run of `cnt` pages; exactly that run is taken. */
    method FindAlignedContinuousMem(cnt: nat, alignment: nat) returns (r: Option<nat>)
      modifies man.words
      ensures r.Some? ==> GoodRequest(cnt, alignment) && r.value % 4096 == 0
      ensures r.Some? ==> LeastRun(old(man.Bits()), r.value / 4096, cnt, alignment)
      ensures r.Some? ==> man.Bits() == Fill(old(man.Bits()), r.value / 4096, r.value / 4096 + cnt, false)
      ensures r.None? ==> man.Bits() == old(man.Bits())
      ensures r.None? && GoodRequest(cnt, alignment) ==>
        forall s: nat :: !AlignedRun(old(man.Bits()), s, cnt, alignment)
    {
      if cnt == 0 || !IsPowerOfTwo(alignment) || alignment < PAGE_SIZE || alignment % PAGE_SIZE != 0 {
        return None;
      }
      var currentSize: nat := 0;
      var limit := man.Len();
      ghost var bits := man.Bits();
      for i := 0 to limit
        invariant man.Bits() == bits && currentSize < cnt
        invariant Scanned(bits, i, currentSize, cnt, alignment)
      {
        var free := man.Get(i);
        ScanOne(bits, i, currentSize, cnt, alignment);
        if free {
          currentSize := currentSize + 1;
        } else {
          currentSize := 0;
        }
        if currentSize == cnt {
          r := TakeIfAligned(i, cnt, alignment);
          if r.Some? {
            return;
          }
          currentSize := currentSize - 1;
        }
      }
      r := None;
    }

    /** Takes the free run that ends at page `i` if its start is aligned. */
    method TakeIfAligned(i: nat, cnt: nat, alignment: nat) returns (r: Option<nat>)
      requires GoodRequest(cnt, alignment) && i + 1 >= cnt && i < |man.Bits()| && FreeRun(man.Bits(), i + 1 - cnt, cnt)
      requires Scanned(man.Bits(), i, cnt - 1, cnt, alignment)
      modifies man.words
      ensures r.Some? <==> AlignedRun(old(man.Bits()), i + 1 - cnt, cnt, alignment)
      ensures r.Some? ==> r.value % 4096 == 0 && r.value / 4096 == i + 1 - cnt
      ensures r.Some? ==> LeastRun(old(man.Bits()), i + 1 - cnt, cnt, alignment)
      ensures r.Some? ==> man.Bits() == Fill(old(man.Bits()), i + 1 - cnt, i + 1, false)
      ensures r.None? ==> man.Bits() == old(man.Bits())
    {
      var alignmentPages := alignment / PAGE_SIZE;
      var start := i - cnt + 1;
      PageAlignment(start, alignment);
      if start % alignmentPages != 0 {
        return None;
      }
      FirstFit(man.Bits(), i, cnt, alignment);
      man.SetRange(start, i + 1, false);
      return Some(start * PAGE_SIZE);
    }

    method DeallocContinuousMem(addr: nat, cnt: nat)
      modifies man.words, this`warnings
      ensures cnt == 0 || addr % 4096 != 0 ==> man.Bits() == old(man.Bits()) && warnings == old(warnings)
      ensures addr % 4096 == 0 ==>
        man.Bits() == Fill(old(man.Bits()), addr / 4096, addr / 4096 + cnt, true)
      ensures addr % 4096 == 0 ==>
        warnings == old(warnings) + FreePages(old(man.Bits()), addr / 4096, addr / 4096 + cnt)
    {
      if cnt == 0 || addr % PAGE_SIZE != 0 {
        assert Fill(man.Bits(), addr / PAGE_SIZE, addr / PAGE_SIZE, true) == man.Bits();
        return;
      }
      var start := addr / PAGE_SIZE;
      var limit := man.Len();
      var index := start;
      while index < start + cnt && index < limit
        invariant start <= index <= start + cnt
        invariant limit == |man.Bits()| == |old(man.Bits())|
        invariant man.Bits() == Fill(old(man.Bits()), start, index, true)
        invariant warnings == old(warnings) + FreePages(old(man.Bits()), start, index)
      {
        var free := man.Get(index);
        if free {
          warnings := warnings + 1;
        }
        man.Set(index, true);
        index := index + 1;
      }
      assert Fill(old(man.Bits()), start, index, true) == Fill(old(man.Bits()), start, start + cnt, true);
      NoMorePages(old(man.Bits()), start, index, start + cnt);
    }
  }

  const USIZE_MAX: nat := 0xFFFF_FFFF_FFFF_FFFF

  datatype DmaError = Empty | InvalidAlignment | OutOfMemory

  /** The pages behind one DMA buffer (kernel/src/mm/dma.rs), without their contents. */
  class DmaBuffer {
    const alloc: PageAlloc
    const start: nat
    const pages: nat

    constructor (alloc: PageAlloc, start: nat, pages: nat)
      ensures this.alloc == alloc && this.start == start && this.pages == pages
    {
      this.alloc := alloc;
      this.start := start;
      this.pages := pages;
    }

    static method Create(alloc: PageAlloc, len: nat, alignment: nat) returns (r: Result<DmaBuffer, DmaError>)
      requires len <= USIZE_MAX
      modifies alloc.man.words
      ensures r.Ok? ==>
        && fresh(r.value) && r.value.alloc == alloc
        && (r.value.pages - 1) * 4096 < len <= r.value.pages * 4096
        && AlignedRun(old(alloc.man.Bits()), r.value.start, r.value.pages, alignment)
        && alloc.man.Bits() == Fill(old(alloc.man.Bits()), r.value.start, r.value.start + r.value.pages, false)
      ensures r.Err? ==> alloc.man.Bits() == old(alloc.man.Bits())
      ensures r == Err(Empty) <==> len == 0
      ensures r == Err(InvalidAlignment) <==> len != 0 && !IsPowerOfTwo(alignment)
    {
      if len == 0 {
        return Err(Empty);
      }
      if !IsPowerOfTwo(alignment) {
        return Err(InvalidAlignment);
      }
      var effective := if alignment < PAGE_SIZE then PAGE_SIZE else alignment;
      if len + (PAGE_SIZE - 1) > USIZE_MAX {
        return Err(OutOfMemory);
      }
      var pages := (len + (PAGE_SIZE - 1)) / PAGE_SIZE;
      var found := alloc.FindAlignedContinuousMem(pages, effective);
      match found {
        case None =>
          return Err(OutOfMemory);
        case Some(address) =>
          if alignment < PAGE_SIZE {
            SmallAlignment(alignment, address / PAGE_SIZE);
          }
          var buffer := new DmaBuffer(alloc, address / PAGE_SIZE, pages);
          return Ok(buffer);
      }
    }

    /** Dropping a buffer whose pages nobody touched puts the bitmap back. */
    method Drop(ghost before: seq<bool>)
      requires FreeRun(before, start, pages)
      requires alloc.man.Bits() == Fill(before, start, start + pages, false)
      modifies alloc.man.words, alloc`warnings
      ensures alloc.man.Bits() == before
      ensures alloc.warnings == old(alloc.warnings)
    {
      NoneFree(Fill(before, start, start + pages, false), start, start + pages);
      alloc.DeallocContinuousMem(start * PAGE_SIZE, pages);
      TakeThenReturn(before, start, pages);
    }
  }

  lemma {:induction false} PowersDivide(a: nat, b: nat)
    requires IsPowerOfTwo(a) && IsPowerOfTwo(b) && a <= b
    ensures b % a == 0
  {
    if a != 1 {
      PowersDivide(a / 2, b / 2);
      var q := (b / 2) / (a / 2);
      assert b / 2 == q * (a / 2);
      assert b == q * a;
      QuotientUnique(b, a, q, 0);
    }
  }

  /** Every alignment below a page divides every page address. */
  lemma SmallAlignment(alignment: nat, page: nat)
    requires IsPowerOfTwo(alignment) && alignment < PAGE_SIZE
    ensures (page * PAGE_SIZE) % alignment == 0
  {
    assert IsPowerOfTwo(4096) by {
      assert IsPowerOfTwo(64) by { assert IsPowerOfTwo(8); assert IsPowerOfTwo(16); assert IsPowerOfTwo(32); }
      assert IsPowerOfTwo(128); assert IsPowerOfTwo(256); assert IsPowerOfTwo(512);
      assert IsPowerOfTwo(1024); assert IsPowerOfTwo(2048);
    }
    PowersDivide(alignment, 4096);
    var q := 4096 / alignment;
    assert 4096 == q * alignment;
    assert page * 4096 == (page * q) * alignment;
    QuotientUnique(page * 4096, alignment, page * q, 0);
  }
}
