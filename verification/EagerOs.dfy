/**
 The reference meaning of process memory: every process owns its pages, fork copies the whole
 address space at once, and nothing is shared.  No frames, tables or counts occur here.
*/
module EagerOs {
  import opened Prelude
  import opened PhysMems

  const USER_PAGES := 0x8_0000_0000
  const USER_BYTES := 0x8000_0000_0000
  const UPPER_PAGES := 0xF_FFF8_0000_0000
  const UPPER_BYTES := 0xFFFF_8000_0000_0000
  const ALL_PAGES := 0x10_0000_0000_0000
  const ALL_BYTES := 0x1_0000_0000_0000_0000
  const STACK_BEGIN := 0x8000_0000_0000
  const STACK_END := STACK_BEGIN - 0x80_0000

  datatype Space = Space(brk: nat, pages: map<nat, Page>) {

    function PageOrZero(vp: nat): Page { if vp in pages then pages[vp] else ZeroPage() }

    /** A user access to `va` succeeds: the page exists, or the address is stack or below the break. */
    predicate Touchable(va: nat) { va / PAGE_BYTES in pages || InStack(va) || va < brk }

    function ReadByte(va: nat): u8 {
      var page := PageOrZero(va / PAGE_BYTES);
      if va % PAGE_BYTES < |page| then page[va % PAGE_BYTES] else 0
    }

    function Touch(vp: nat): Space { this.(pages := pages[vp := PageOrZero(vp)]) }

    function WriteByte(va: nat, b: u8): Space {
      var vp := va / PAGE_BYTES;
      this.(pages := pages[vp := StoreByte(PageOrZero(vp), va % PAGE_BYTES, b)])
    }
  }

  /** The addresses the processor accepts: bits 47 to 63 are equal. */
  predicate Canonical(va: nat) { va < USER_BYTES || UPPER_BYTES <= va < ALL_BYTES }

  predicate CanonicalPage(vp: nat) { vp < USER_PAGES || UPPER_PAGES <= vp < ALL_PAGES }

  predicate InStack(va: nat) { STACK_END <= va < STACK_BEGIN }

  function StoreByte(page: Page, offset: nat, b: u8): Page {
    if offset < |page| then page[offset := b] else page
  }

  /** A store changes one byte of a page and no other. */
  lemma StoredByte(page: Page, offset: nat, b: u8, i: nat)
    requires offset < |page| && i < |page|
    ensures |StoreByte(page, offset, b)| == |page|
    ensures StoreByte(page, offset, b)[i] == if i == offset then b else page[i]
  {
  }

  ghost predicate WholePages(s: Space) { forall vp: nat :: vp in s.pages ==> |s.pages[vp]| == PAGE_BYTES }

  /** The byte at `va` is `value` now, and every other address holds what it held. */
  ghost predicate OneByteChanged(a: Space, b: Space, va: nat, value: u8) {
    b.brk == a.brk && forall x: nat :: b.ReadByte(x) == if x == va then value else a.ReadByte(x)
  }

  /** Reading over writing. */
  lemma WriteThenRead(s: Space, va: nat, value: u8)
    requires WholePages(s)
    ensures OneByteChanged(s, s.WriteByte(va, value), va, value)
  {
    var t := s.WriteByte(va, value);
    var vp := va / PAGE_BYTES;
    forall x: nat
      ensures t.ReadByte(x) == if x == va then value else s.ReadByte(x)
    {
      if x / PAGE_BYTES == vp {
        StoredByte(s.PageOrZero(vp), va % PAGE_BYTES, value, x % PAGE_BYTES);
        SamePlace(x, va);
      }
    }
  }

  lemma SamePlace(x: nat, y: nat)
    requires x / PAGE_BYTES == y / PAGE_BYTES
    ensures x % PAGE_BYTES == y % PAGE_BYTES <==> x == y
  {
  }

  /** Touching a page changes no byte: an absent page reads as zero before and after. */
  lemma TouchThenRead(s: Space, vp: nat, x: nat)
    ensures s.Touch(vp).ReadByte(x) == s.ReadByte(x)
    ensures x / PAGE_BYTES !in s.pages ==> s.ReadByte(x) == 0
  {
  }

  type World = seq<Option<Space>>

  predicate Alive(w: World, p: nat) { p < |w| && w[p].Some? }

  /** The child starts as a full copy of its parent. */
  function Fork(w: World, p: nat, child: nat): World {
    if Alive(w, p) then Put(w, child, w[p]) else w
  }

  /** `w` with place `i` set, grown by empty places if it is too short. */
  function Put(w: World, i: nat, s: Option<Space>): (r: World)
    ensures |r| == if |w| <= i then i + 1 else |w|
    ensures r[i] == s
    ensures forall q: nat :: q < |r| && q != i ==> r[q] == if q < |w| then w[q] else None
  {
    (if |w| <= i then w + seq(i + 1 - |w|, _ => None) else w)[i := s]
  }

  datatype Event =
    | Forked(parent: nat, child: nat)
    | Exited(p: nat)
    | BrkSet(p: nat, brk: nat)
    | Faulted(p: nat, vp: nat)                 // demand paging of one page
    | Unshared(p: nat, vp: nat)                // copy-on-write fault on one page
    | Stored(p: nat, va: nat, b: u8)          // a store the page walk allows
    | ExecCleared(p: nat)
    | ExecMapped(p: nat, vp: nat, left: Page)  // `left` is what the new frame held before
    | Refused(p: nat, vp: nat)                 // exec met a page that is mapped already
    | DmaTaken(frames: set<nat>)               // a driver's buffer: no process sees it
    | DmaReturned(frames: set<nat>)

  /** What one event does to the processes' memories. */
  function After(w: World, ev: Event): World {
    match ev
    case Forked(p, child) => Fork(w, p, child)
    case Exited(p) => if Alive(w, p) then w[p := None] else w
    case BrkSet(p, brk) => if Alive(w, p) then w[p := Some(w[p].value.(brk := brk))] else w
    case Faulted(p, vp) => if Alive(w, p) then w[p := Some(w[p].value.Touch(vp))] else w
    case Unshared(_, _) => w
    case Refused(_, _) => w
    case DmaTaken(_) => w
    case DmaReturned(_) => w
    case Stored(p, va, b) => if Alive(w, p) then w[p := Some(w[p].value.WriteByte(va, b))] else w
    case ExecCleared(p) => if Alive(w, p) then w[p := Some(Space(0, map[]))] else w
    case ExecMapped(p, vp, left) =>
      if Alive(w, p) then w[p := Some(w[p].value.(pages := w[p].value.pages[vp := left]))] else w
  }

  function Run(w: World, evs: seq<Event>): World
    decreases |evs|
  {
    if evs == [] then w else Run(After(w, evs[0]), evs[1..])
  }
}
