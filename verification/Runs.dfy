/**
 Runs of the memory system: every step of the kernel that touches frames or tables, the limits
 within which a step does what eager copying would do, and the theorems over whole runs.
*/
module Runs {
  import opened Prelude
  import opened PageTree
  import opened PhysMems
  import opened TreeWalk
  import opened FrameBooks
  import opened ForkProof
  import opened PageProof
  import opened EagerOs
  import opened Views

  /** One kernel step from `a` to `b`. */
  ghost predicate Step(a: Os, b: Os, ev: Event) {
    match ev
    case Forked(p, child) => exists dest: nat :: ForkStep(a, b, p, child, dest)
    case Exited(p) => exists m1: Mem :: Released(a, m1, b, p, true)
    case ExecCleared(p) => (exists m1: Mem :: Released(a, m1, b, p, false)) && b.Live(p) && b.tasks[p].value.brk == 0
    case BrkSet(p, brk) => a.Live(p) && b == a.(tasks := a.tasks[p := Some(a.tasks[p].value.(brk := brk))])
    case Faulted(p, vp) =>
      Allowed(a, p, vp) && exists now: Entry :: PageAdded(a, b, p, vp, now) && PageAt(b.m, now.frame) == ZeroPage()
    case ExecMapped(p, vp, left) => exists now: Entry :: PageAdded(a, b, p, vp, now) && PageAt(b.m, now.frame) == left
    case Unshared(p, vp) => exists was: Entry, now: Entry, newFrame: bool :: PageUnshared(a, b, p, vp, was, now, newFrame)
    case Stored(p, va, b8) =>
      Canonical(va) && StoreFrame(a, p, va).Some? && StoredIn(a, b, StoreFrame(a, p, va).value, va % PAGE_BYTES, b8)
    case Refused(p, vp) => CanonicalPage(vp) && FlagsOpened(a, b, p, PathOf(vp))
    case DmaTaken(frames) => FreeBitsChanged(a, b) && (forall f: nat :: b.m.Free(f) == (a.m.Free(f) && f !in frames))
      && (forall f: nat :: f in frames ==> a.m.Free(f))
    case DmaReturned(frames) => FreeBitsChanged(a, b) && (forall f: nat :: b.m.Free(f) == (a.m.Free(f) || f in frames))
  }

  /** The fault handler accepts an address of this page: it is stack, or below the break. */
  predicate Allowed(a: Os, p: nat, vp: nat) {
    a.Live(p) && (InStack(vp * PAGE_BYTES) || vp * PAGE_BYTES < a.tasks[p].value.brk)
  }

  ghost predicate FreeBitsChanged(a: Os, b: Os) {
    b == a.(m := a.m.(free := b.m.free)) && b.m.Sized() && |b.m.free| == |a.m.free|
  }

  /** Page `vp` of `p` was unmapped and got a new frame. */
  ghost predicate PageAdded(a: Os, b: Os, p: nat, vp: nat, now: Entry) {
    CanonicalPage(vp) && Remapped(a, b, p, PathOf(vp), None, now, true) && DataOnly(a.m, b.m, now.frame)
  }

  /** Page `vp` of `p` became writable: in a new frame with the same bytes, or in its own frame. */
  ghost predicate PageUnshared(a: Os, b: Os, p: nat, vp: nat, was: Entry, now: Entry, newFrame: bool) {
    && CanonicalPage(vp) && Remapped(a, b, p, PathOf(vp), Some(was), now, newFrame)
    && (newFrame <==> a.m.Refs(was.frame) > 1)
    && (if newFrame then DataOnly(a.m, b.m, now.frame) && PageAt(b.m, now.frame) == PageAt(a.m, was.frame)
        else b.m.data == a.m.data)
  }

  ghost predicate WritableAt(a: Os, p: nat, vp: nat) {
    a.Live(p) && Lookup(a.TreeOf(p), PathOf(vp)).Some? && Lookup(a.TreeOf(p), PathOf(vp)).value.writable
  }

  /** What the page walk of an access says. */
  function Granting(a: Os, p: nat, va: nat, mode: Mode, write: bool): Access {
    if a.Live(p) then Mmu(a.m.tabs, a.tasks[p].value.root, TOP_LEVEL, PathOf(va / PAGE_BYTES), mode, write, true) else NotPresent
  }

  /**
   Where a store at `va` goes that the page walk allows, be it the program's or the kernel's through
   the tables of `p`: whatever the kernel may not write the program may not either.
  */
  function StoreFrame(a: Os, p: nat, va: nat): Option<nat> {
    var access := Granting(a, p, va, KernelMode, true);
    if access.Granted? then Some(access.frame) else None
  }

  /** A store that the program is granted goes there too. */
  lemma UserStoreFrame(a: Os, p: nat, va: nat)
    requires Granting(a, p, va, UserMode, true).Granted?
    ensures StoreFrame(a, p, va) == Some(Granting(a, p, va, UserMode, true).frame)
  {
    KernelIsGranted(a.m.tabs, a.tasks[p].value.root, TOP_LEVEL, PathOf(va / PAGE_BYTES), true, true, true);
  }

  /** In the user half a store goes where the page is mapped, and only if it is mapped writable. */
  lemma LowStoreFrame(a: Os, held: Held, p: nat, va: nat)
    requires a.Inv(held) && va < USER_BYTES
    ensures StoreFrame(a, p, va).Some? <==> WritableAt(a, p, va / PAGE_BYTES)
    ensures StoreFrame(a, p, va).Some? ==> StoreFrame(a, p, va).value == LeafFrame(a, p, va / PAGE_BYTES)
    ensures Granting(a, p, va, UserMode, true) == Granting(a, p, va, KernelMode, true)
  {
    if a.Live(p) {
      UserPathOf(va / PAGE_BYTES);
      TreeInv(a, held, p);
      MmuIsLookup(a.m.tabs, a.tasks[p].value.root, TOP_LEVEL, false, PathOf(va / PAGE_BYTES), KernelMode, true);
      MmuIsLookup(a.m.tabs, a.tasks[p].value.root, TOP_LEVEL, false, PathOf(va / PAGE_BYTES), UserMode, true);
    }
  }

  /** The frame that page `vp` of `p` is mapped to. */
  ghost function LeafFrame(a: Os, p: nat, vp: nat): nat {
    if a.Live(p) && Maps(a.TreeOf(p), vp) then FrameAt(a.TreeOf(p), PathOf(vp)).value else 0
  }

  /** The count of the frame that page `vp` of `p` is mapped to. */
  ghost function CountAt(a: Os, p: nat, vp: nat): nat {
    if a.Live(p) && Maps(a.TreeOf(p), vp) then a.m.Refs(LeafFrame(a, p, vp)) else 0
  }

  /**
   The limits of the design: fork counts at most 255 mappings of a frame and copies tables up to
   4 GiB, and only pages of the lower half belong to a process.
  */
  ghost predicate WithinLimits(a: Os, ev: Event) {
    match ev
    case Forked(p, _) => a.Live(p) ==> ForkFits(a, p) && AllReached(a, p)
    case Faulted(_, vp) => vp < USER_PAGES
    case ExecMapped(_, vp, _) => vp < USER_PAGES
    case Unshared(p, vp) => vp < USER_PAGES || CountAt(a, p, vp) <= 1
    case Stored(_, va, _) => va < USER_BYTES
    case _ => true
  }

  lemma {:induction false} WritableCounted(tabs: Tables, table: nat, level: nat, user: bool, path: Path)
    requires UserPath(path, level, user)
    requires Shape(ReadTree(tabs, table, level, user), level)
    requires var l := Lookup(ReadTree(tabs, table, level, user), path); l.Some? && l.value.writable
    ensures var t := ReadTree(tabs, table, level, user); Count(WritableMaps, t, Lookup(t, path).value.frame) > 0
    decreases level
  {
    var t := ReadTree(tabs, table, level, user);
    var e := EntryAt(tabs, table, path[0]);
    assert t.slots[path[0]] == SlotOf(tabs, e, path[0], level, user);
    SlotWithin(WritableMaps, t, path[0], Lookup(t, path).value.frame);
    if level > 1 {
      assert SlotShape(t.slots[path[0]]);
      UserPathDown(path, level, user);
      WritableCounted(tabs, e.frame, level - 1, true, path[1..]);
    }
  }

  /** A frame that somebody may write has exactly one mapping. */
  lemma WritableIsSole(a: Os, held: Held, p: nat, vp: nat)
    requires a.Inv(held) && vp < USER_PAGES && WritableAt(a, p, vp)
    ensures a.m.Refs(Lookup(a.TreeOf(p), PathOf(vp)).value.frame) == 1
  {
    var f := Lookup(a.TreeOf(p), PathOf(vp)).value.frame;
    WritableCounted(a.m.tabs, a.tasks[p].value.root, TOP_LEVEL, false, PathOf(vp));
    TaskShare(a, p);
    assert a.FrameInv(f, held);
  }

  lemma AddRefines(a: Os, b: Os, held: Held, p: nat, vp: nat, page: Page)
    requires a.Inv(held) && vp < USER_PAGES
    requires exists now: Entry :: PageAdded(a, b, p, vp, now) && PageAt(b.m, now.frame) == page
    ensures b.Inv(held)
    ensures a.Live(p) && vp !in SpaceOf(a, p).pages
    ensures WorldOf(b) == WorldOf(a)[p := Some(SpaceOf(a, p).(pages := SpaceOf(a, p).pages[vp := page]))]
  {
    var now: Entry :| PageAdded(a, b, p, vp, now) && PageAt(b.m, now.frame) == page;
    RemapKeepsBooks(a, b, held, p, PathOf(vp), None, now, true);
    RemapWorld(a, b, held, p, vp, None, now, true);
  }

  lemma UnshareRefines(a: Os, b: Os, held: Held, p: nat, vp: nat)
    requires a.Inv(held) && vp < USER_PAGES && Step(a, b, Unshared(p, vp))
    ensures b.Inv(held) && WorldOf(b) == WorldOf(a)
  {
    var was: Entry, now: Entry, newFrame: bool :| PageUnshared(a, b, p, vp, was, now, newFrame);
    UnsharedPage(a, b, held, p, vp, was, now, newFrame);
  }

  lemma UnsharedPage(a: Os, b: Os, held: Held, p: nat, vp: nat, was: Entry, now: Entry, newFrame: bool)
    requires a.Inv(held) && vp < USER_PAGES && PageUnshared(a, b, p, vp, was, now, newFrame)
    ensures b.Inv(held) && WorldOf(b) == WorldOf(a)
  {
    RemapKeepsBooks(a, b, held, p, PathOf(vp), Some(was), now, newFrame);
    RemapWorld(a, b, held, p, vp, Some(was), now, newFrame);
    SamePageAgain(SpaceOf(a, p), vp, PageAt(b.m, now.frame)) by {
      assert Maps(a.TreeOf(p), vp);
      assert SpaceOf(a, p).pages[vp] == PageAt(a.m, was.frame);
    }
    assert WorldOf(a)[p := Some(SpaceOf(a, p))] == WorldOf(a);
  }

  lemma SamePageAgain(s: Space, vp: nat, page: Page)
    requires vp in s.pages && s.pages[vp] == page
    ensures s.(pages := s.pages[vp := page]) == s
  {
    assert s.pages[vp := page] == s.pages;
  }

  /** Taking free frames for a driver, and giving them back, changes no process's view. */
  lemma DmaWorld(a: Os, b: Os)
    requires FreeBitsChanged(a, b)
    ensures WorldOf(b) == WorldOf(a)
    ensures b.Forest() == a.Forest()
  {
    forall q: nat | a.Live(q)
      ensures SpaceOf(b, q) == SpaceOf(a, q)
    {
      SamePages(a.m, b.m, a.TreeOf(q));
    }
  }

  lemma DmaKeepsBooks(a: Os, b: Os, held: Held, more: Held)
    requires a.Inv(held) && FreeBitsChanged(a, b)
    requires forall f: nat :: Carried(more, f) == Carried(held, f)
    requires forall f: nat :: (f in held && f !in more) || (f !in held && f in more) ==> a.m.Free(f) == !b.m.Free(f) == (f in more)
    requires forall f: nat :: (f in held <==> f in more) ==> b.m.Free(f) == a.m.Free(f)
    ensures b.Inv(more)
  {
    DmaWorld(a, b);
    forall f: nat
      ensures b.FrameInv(f, more)
    {
      assert a.FrameInv(f, held);
      assert b.m.Refs(f) == a.m.Refs(f);
    }
    forall q: nat | b.Live(q)
      ensures Shape(b.TreeOf(q), TOP_LEVEL)
    {
      assert Shape(a.TreeOf(q), TOP_LEVEL);
    }
  }

  // ---- the machine: processes, and the frames held outside their user halves ----

  /**
   `held` names the frames of the kernel and of drivers, which carry no count, and the frames
   mapped above the user half, which carry the count that their mapping gave them.
  */
  datatype Machine = Machine(os: Os, held: Held) {

    ghost predicate Sound() { os.Inv(held) }

    /** Frames with a count that belongs to no user mapping. */
    ghost function Lost(): set<nat> { set f | f in held && held[f] > 0 }
  }

  function NoCounts(frames: set<nat>): Held { map f | f in frames :: 0 }

  ghost function HeldAfter(b: Os, held: Held, ev: Event): Held {
    match ev
    case DmaTaken(frames) => held + NoCounts(frames)
    case DmaReturned(frames) => held - frames
    case Faulted(p, vp) => if vp < USER_PAGES then held else held[LeafFrame(b, p, vp) := 1]
    case ExecMapped(p, vp, _) => if vp < USER_PAGES then held else held[LeafFrame(b, p, vp) := 1]
    case _ => held
  }

  /** A driver gives back what it took. */
  ghost predicate MachineStep(a: Machine, b: Machine, ev: Event) {
    && Step(a.os, b.os, ev) && b.held == HeldAfter(b.os, a.held, ev)
    && (ev.DmaReturned? ==> forall f: nat :: f in ev.frames ==> f in a.held && a.held[f] == 0)
  }

  /**
   The counts of frames stay exact: 255 mappings at most, no shared frame is copied above the user
   half, and no store goes into a page table.
  */
  ghost predicate CountsFit(a: Os, ev: Event) {
    match ev
    case Forked(p, _) => a.Live(p) ==> ForkFits(a, p)
    case Unshared(p, vp) => vp < USER_PAGES || CountAt(a, p, vp) <= 1
    case Stored(p, va, _) => StoreFrame(a, p, va).Some? ==> a.Total(TableFrames, StoreFrame(a, p, va).value) == 0
    case _ => true
  }

  /** A store shows in no process: nobody maps the frame it goes to, or the byte is there already. */
  ghost predicate Unnoticed(a: Os, ev: Event)
    requires ev.Stored?
  {
    var f := StoreFrame(a, ev.p, ev.va);
    f.Some? ==> !Seen(a, f.value) || SameByte(a.m, f.value, ev.va % PAGE_BYTES, ev.b)
  }

  /** Whether the event concerns pages of the user half, or no page at all. */
  predicate Inside(ev: Event) {
    match ev
    case Faulted(_, vp) => vp < USER_PAGES
    case ExecMapped(_, vp, _) => vp < USER_PAGES
    case Stored(_, va, _) => va < USER_BYTES
    case _ => true
  }

  // ---- single steps ----

  lemma UpperAdd(a: Os, b: Os, held: Held, p: nat, vp: nat)
    requires a.Inv(held) && vp >= USER_PAGES && exists now: Entry :: PageAdded(a, b, p, vp, now)
    ensures var nf := LeafFrame(b, p, vp); a.m.Free(nf) && nf !in held && b.Inv(held[nf := 1]) && !b.Inv(held)
    ensures WorldOf(b) == WorldOf(a)
  {
    var now: Entry :| PageAdded(a, b, p, vp, now);
    UpperRemapLoses(a, b, held, p, PathOf(vp), None, now);
    UpperRemapWorld(a, b, held, p, PathOf(vp), None, now, true);
    assert LeafFrame(b, p, vp) == now.frame;
  }

  lemma UpperUnshare(a: Os, b: Os, held: Held, p: nat, vp: nat)
    requires a.Inv(held) && vp >= USER_PAGES && Step(a, b, Unshared(p, vp))
    ensures b.Inv(held) <==> CountAt(a, p, vp) <= 1
    ensures WorldOf(b) == WorldOf(a)
  {
    var was: Entry, now: Entry, newFrame: bool :| PageUnshared(a, b, p, vp, was, now, newFrame);
    assert LeafFrame(a, p, vp) == was.frame;
    UpperRemapWorld(a, b, held, p, PathOf(vp), Some(was), now, newFrame);
    if newFrame {
      UpperRemapLoses(a, b, held, p, PathOf(vp), Some(was), now);
    } else {
      UpperFlagsKeepBooks(a, b, held, p, PathOf(vp), Some(was), now);
    }
  }

  lemma ForkSound(a: Os, b: Os, held: Held, p: nat, child: nat)
    requires a.Inv(held) && Step(a, b, Forked(p, child))
    ensures a.Live(p)
    ensures b.Inv(held) <==> ForkFits(a, p)
    ensures WorldOf(b) == After(WorldOf(a), Forked(p, child)) <==> AllReached(a, p)
  {
    var dest: nat :| ForkStep(a, b, p, child, dest);
    ForkKeepsBooks(a, b, held, p, child, dest);
    ForkWorld(a, b, held, p, child, dest);
    ForkChild(a, b, held, p, child, dest);
    assert WorldOf(b)[child] == Some(SpaceOf(b, child));
    assert After(WorldOf(a), Forked(p, child))[child] == Some(SpaceOf(a, p));
  }

  lemma ReleaseSound(a: Os, b: Os, held: Held, ev: Event)
    requires a.Inv(held) && (ev.Exited? || ev.ExecCleared?) && Step(a, b, ev)
    ensures b.Inv(held) && WorldOf(b) == After(WorldOf(a), ev)
  {
    var p, root := ev.p, ev.Exited?;
    var m1: Mem :| Released(a, m1, b, p, root);
    ReleaseKeepsBooks(a, m1, b, held, p, root);
    ReleaseWorld(a, m1, b, held, p, root);
  }

  lemma DmaSound(a: Machine, b: Machine, ev: Event)
    requires a.Sound() && (ev.DmaTaken? || ev.DmaReturned?) && MachineStep(a, b, ev)
    ensures b.Sound() && WorldOf(b.os) == WorldOf(a.os) && b.Lost() == a.Lost()
  {
    DmaWorld(a.os, b.os);
    forall f: nat
      ensures f in a.held ==> !a.os.m.Free(f)
      ensures a.os.m.Free(f) ==> a.os.m.Refs(f) == 0
    {
      assert a.os.FrameInv(f, a.held);
    }
    DmaKeepsBooks(a.os, b.os, a.held, b.held);
  }

  /**
   One step of the machine: the counts stay exact if `CountsFit`, and only then unless a store
   happens to leave a table good.  Processes see what eager copying gives them, and nothing of what
   happens above the user half but for stores, which show exactly where the frame is mapped.
  */
  lemma StepSound(a: Machine, b: Machine, ev: Event)
    requires a.Sound() && MachineStep(a, b, ev)
    ensures CountsFit(a.os, ev) ==> b.Sound()
    ensures b.Sound() && !ev.Stored? ==> CountsFit(a.os, ev)
    ensures a.Lost() <= b.Lost()
    ensures b.Lost() == a.Lost() <==> Inside(ev) || ev.Stored?
    ensures !Inside(ev) && !ev.Stored? ==> WorldOf(b.os) == WorldOf(a.os)
    ensures !Inside(ev) && ev.Stored? && CountsFit(a.os, ev) ==> (WorldOf(b.os) == WorldOf(a.os) <==> Unnoticed(a.os, ev))
    ensures Inside(ev) && !ev.Forked? ==> WorldOf(b.os) == After(WorldOf(a.os), ev)
    ensures ev.Forked? ==> a.os.Live(ev.parent) && (WorldOf(b.os) == After(WorldOf(a.os), ev) <==> AllReached(a.os, ev.parent))
  {
    match ev
    case Forked(p, child) => ForkSound(a.os, b.os, a.held, p, child);
    case Exited(p) => ReleaseSound(a.os, b.os, a.held, ev);
    case ExecCleared(p) => ReleaseSound(a.os, b.os, a.held, ev);
    case BrkSet(p, brk) => BrkWorld(a.os, b.os, a.held, p, brk);
    case Faulted(p, vp) => AddSound(a, b, ev, p, vp, ZeroPage());
    case ExecMapped(p, vp, left) => AddSound(a, b, ev, p, vp, left);
    case Unshared(p, vp) =>
      if vp < USER_PAGES {
        UnshareRefines(a.os, b.os, a.held, p, vp);
      } else {
        UpperUnshare(a.os, b.os, a.held, p, vp);
      }
    case Stored(p, va, b8) => StoreSound(a, b, p, va, b8);
    case Refused(p, vp) =>
      OpeningKeepsBooks(a.os, b.os, a.held, p, PathOf(vp));
      OpeningWorld(a.os, b.os, a.held, p, PathOf(vp));
    case DmaTaken(_) => DmaSound(a, b, ev);
    case DmaReturned(_) => DmaSound(a, b, ev);
  }

  lemma AddSound(a: Machine, b: Machine, ev: Event, p: nat, vp: nat, page: Page)
    requires a.Sound() && MachineStep(a, b, ev)
    requires (ev == Faulted(p, vp) && page == ZeroPage()) || ev == ExecMapped(p, vp, page)
    ensures b.Sound() && a.Lost() <= b.Lost() && (b.Lost() == a.Lost() <==> vp < USER_PAGES)
    ensures vp >= USER_PAGES ==> WorldOf(b.os) == WorldOf(a.os)
    ensures vp < USER_PAGES ==> WorldOf(b.os) == After(WorldOf(a.os), ev)
  {
    if vp < USER_PAGES {
      AddRefines(a.os, b.os, a.held, p, vp, page);
    } else {
      UpperAdd(a.os, b.os, a.held, p, vp);
      OneMoreLost(a, b, LeafFrame(b.os, p, vp));
    }
  }

  lemma OneMoreLost(a: Machine, b: Machine, nf: nat)
    requires b.held == a.held[nf := 1] && nf !in a.held
    ensures a.Lost() <= b.Lost() && b.Lost() != a.Lost()
  {
    assert nf in b.Lost() && nf !in a.Lost();
  }

  lemma StoreSound(a: Machine, b: Machine, p: nat, va: nat, b8: u8)
    requires a.Sound() && MachineStep(a, b, Stored(p, va, b8))
    ensures b.Lost() == a.Lost()
    ensures va < USER_BYTES ==>
      CountsFit(a.os, Stored(p, va, b8)) && b.Sound() && WorldOf(b.os) == After(WorldOf(a.os), Stored(p, va, b8))
    ensures va >= USER_BYTES && CountsFit(a.os, Stored(p, va, b8)) ==>
      b.Sound() && (WorldOf(b.os) == WorldOf(a.os) <==> Unnoticed(a.os, Stored(p, va, b8)))
  {
    var f := StoreFrame(a.os, p, va).value;
    if va < USER_BYTES {
      LowStoreFrame(a.os, a.held, p, va);
      WritableIsSole(a.os, a.held, p, va / PAGE_BYTES);
      assert a.os.FrameInv(f, a.held);
      MappedFrame(a.os, a.held, p, va / PAGE_BYTES);
      StoreWorld(a.os, b.os, a.held, p, va, b8);
    } else if a.os.Total(TableFrames, f) == 0 {
      StoreKeepsBooks(a.os, b.os, a.held, f, va % PAGE_BYTES, b8);
      StoreShows(a.os, b.os, a.held, f, va % PAGE_BYTES, b8);
    }
  }

  /** A store above the user half into a page of a process changes that page, and the books do not notice. */
  lemma UpperStoreShows(a: Machine, b: Machine, p: nat, va: nat, b8: u8, q: nat, vq: nat)
    requires a.Sound() && MachineStep(a, b, Stored(p, va, b8)) && va >= USER_BYTES
    requires SeenAt(a.os, StoreFrame(a.os, p, va).value, q, vq)
    ensures b.Sound() && b.os.Live(q) && vq in SpaceOf(a.os, q).pages && vq in SpaceOf(b.os, q).pages
    ensures SpaceOf(b.os, q).pages[vq] == StoreByte(SpaceOf(a.os, q).pages[vq], va % PAGE_BYTES, b8)
    ensures !SameByte(a.os.m, StoreFrame(a.os, p, va).value, va % PAGE_BYTES, b8) ==> SpaceOf(b.os, q) != SpaceOf(a.os, q)
  {
    StoreSeen(a.os, b.os, a.held, StoreFrame(a.os, p, va).value, va % PAGE_BYTES, b8, q, vq);
    if !SameByte(a.os.m, StoreFrame(a.os, p, va).value, va % PAGE_BYTES, b8) {
      assert SpaceOf(b.os, q).pages[vq][va % PAGE_BYTES] == b8 != SpaceOf(a.os, q).pages[vq][va % PAGE_BYTES];
    }
  }

  /** A page above the user half is in no process's view, so a store to it is not what the program meant. */
  lemma UpperStoreUnseen(a: Os, b: Os, p: nat, va: nat, b8: u8)
    requires a.Live(p) && va >= USER_BYTES && |b.tasks| == |a.tasks|
    ensures WorldOf(b) != After(WorldOf(a), Stored(p, va, b8))
  {
    assert va / PAGE_BYTES in After(WorldOf(a), Stored(p, va, b8))[p].value.pages;
    if WorldOf(b)[p].Some? {
      assert va / PAGE_BYTES !in WorldOf(b)[p].value.pages;
    }
  }

  /**
   The limits are exact for every step: within them, and only there, all counts are right, no
   frame leaves the books, and processes see what eager copying gives them.
  */
  lemma StepLimitsExact(a: Machine, b: Machine, ev: Event)
    requires a.Sound() && MachineStep(a, b, ev)
    ensures b.Sound() && b.Lost() == a.Lost() && WorldOf(b.os) == After(WorldOf(a.os), ev) <==> WithinLimits(a.os, ev)
  {
    match ev
    case Stored(p, va, b8) =>
      StoreSound(a, b, p, va, b8);
      if va >= USER_BYTES {
        UpperStoreUnseen(a.os, b.os, p, va, b8);
      }
    case _ =>
      StepSound(a, b, ev);
  }

  /** A step of the user half on the processes alone. */
  lemma StepRefines(a: Os, b: Os, held: Held, ev: Event)
    requires a.Inv(held) && Step(a, b, ev) && WithinLimits(a, ev) && !ev.DmaTaken? && !ev.DmaReturned?
    ensures b.Inv(held)
    ensures WorldOf(b) == After(WorldOf(a), ev)
  {
    StepLimitsExact(Machine(a, held), Machine(b, held), ev);
  }

  /** A lost frame has a count, but is no table, no user page and not free. */
  lemma LostFrame(a: Machine, f: nat)
    requires a.Sound() && f in a.Lost()
    ensures !a.os.m.Free(f) && a.os.m.Refs(f) > 0 && a.os.Total(UserMaps, f) == 0 && a.os.Total(TableFrames, f) == 0
  {
    assert a.os.FrameInv(f, a.held);
  }

  // ---- runs ----

  ghost predicate IsRun(states: seq<Machine>, evs: seq<Event>) {
    && |states| == |evs| + 1
    && forall i :: 0 <= i < |evs| ==> MachineStep(states[i], states[i + 1], evs[i])
  }

  ghost predicate AllWithinLimits(states: seq<Machine>, evs: seq<Event>)
    requires |states| == |evs| + 1
  {
    forall i :: 0 <= i < |evs| ==> WithinLimits(states[i].os, evs[i])
  }

  ghost predicate AllFit(states: seq<Machine>, evs: seq<Event>)
    requires |states| == |evs| + 1
  {
    forall i :: 0 <= i < |evs| ==> CountsFit(states[i].os, evs[i])
  }

  lemma RunTail(states: seq<Machine>, evs: seq<Event>)
    requires IsRun(states, evs) && evs != []
    ensures IsRun(states[1..], evs[1..])
    ensures AllWithinLimits(states, evs) ==> AllWithinLimits(states[1..], evs[1..])
    ensures AllFit(states, evs) ==> AllFit(states[1..], evs[1..])
  {
    var rest := states[1..];
    forall i | 0 <= i < |evs| - 1
      ensures MachineStep(rest[i], rest[i + 1], evs[1..][i])
      ensures WithinLimits(states[i + 1].os, evs[i + 1]) ==> WithinLimits(rest[i].os, evs[1..][i])
      ensures CountsFit(states[i + 1].os, evs[i + 1]) ==> CountsFit(rest[i].os, evs[1..][i])
    {
      assert MachineStep(states[i + 1], states[i + 2], evs[i + 1]);
    }
  }

  /** Over every run whose counts fit, every frame stays accounted for, and a lost frame is never free again. */
  lemma {:induction false} RunStaysSound(states: seq<Machine>, evs: seq<Event>)
    requires IsRun(states, evs) && states[0].Sound() && AllFit(states, evs)
    ensures forall i :: 0 <= i < |states| ==> states[i].Sound() && states[0].Lost() <= states[i].Lost()
    ensures forall i, f: nat :: 0 <= i < |states| && f in states[0].Lost() ==> !states[i].os.m.Free(f)
    decreases |evs|
  {
    if evs != [] {
      StepSound(states[0], states[1], evs[0]);
      RunTail(states, evs);
      RunStaysSound(states[1..], evs[1..]);
      forall i | 0 <= i < |states|
        ensures states[i].Sound() && states[0].Lost() <= states[i].Lost()
      {
        if i > 0 {
          assert states[i] == states[1..][i - 1];
        }
      }
    }
    forall i, f: nat | 0 <= i < |states| && f in states[0].Lost()
      ensures !states[i].os.m.Free(f)
    {
      LostFrame(states[i], f);
    }
  }

  ghost predicate AllKeep(states: seq<Machine>, lost: set<nat>) {
    forall i :: 0 <= i < |states| ==> states[i].Sound() && states[i].Lost() == lost
  }

  /**
   Over every run within the limits all frames stay accounted for, none is lost, and every process
   sees what eager copying gives it.
  */
  lemma {:induction false} RunRefinesEagerCopy(states: seq<Machine>, evs: seq<Event>)
    requires IsRun(states, evs) && states[0].Sound() && AllWithinLimits(states, evs)
    ensures AllKeep(states, states[0].Lost())
    ensures WorldOf(states[|evs|].os) == Run(WorldOf(states[0].os), evs)
    decreases |evs|
  {
    if evs != [] {
      StepLimitsExact(states[0], states[1], evs[0]);
      RunTail(states, evs);
      RunRefinesEagerCopy(states[1..], evs[1..]);
      KeepFirst(states, states[0].Lost());
    }
  }

  lemma KeepFirst(states: seq<Machine>, lost: set<nat>)
    requires states != [] && states[0].Sound() && states[0].Lost() == lost && AllKeep(states[1..], lost)
    ensures AllKeep(states, lost)
  {
    forall i | 0 <= i < |states|
      ensures states[i].Sound() && states[i].Lost() == lost
    {
      if i > 0 {
        assert states[i] == states[1..][i - 1];
      }
    }
  }

  // ---- what keeps a run inside the user half ----

  /** Some address above the user half is accepted by the fault handler exactly when the break is above its start. */
  lemma UpperAllowed(a: Os, p: nat)
    requires a.Live(p)
    ensures a.tasks[p].value.brk > UPPER_BYTES <==> Allowed(a, p, UPPER_PAGES)
    ensures (exists vp: nat :: USER_PAGES <= vp && CanonicalPage(vp) && Allowed(a, p, vp)) <==> Allowed(a, p, UPPER_PAGES)
  {
    if a.tasks[p].value.brk > UPPER_BYTES {
      assert CanonicalPage(UPPER_PAGES) && Allowed(a, p, UPPER_PAGES);
    }
  }

  ghost predicate BreaksLow(a: Os) {
    forall p: nat :: a.Live(p) ==> a.tasks[p].value.brk <= UPPER_BYTES
  }

  /** What callers can check: breaks, program segments, copied pages and stores stay below the upper half. */
  predicate AsksLow(ev: Event) {
    match ev
    case BrkSet(_, brk) => brk <= UPPER_BYTES
    case ExecMapped(_, vp, _) => vp < USER_PAGES
    case Unshared(_, vp) => vp < USER_PAGES
    case Stored(_, va, _) => va < USER_BYTES
    case _ => true
  }

  lemma LowStep(a: Machine, b: Machine, ev: Event)
    requires a.Sound() && MachineStep(a, b, ev) && BreaksLow(a.os) && AsksLow(ev)
    requires ev.Forked? ==> WithinLimits(a.os, ev)
    ensures WithinLimits(a.os, ev) && BreaksLow(b.os)
  {
    match ev
    case Forked(p, child) =>
      var dest: nat :| ForkStep(a.os, b.os, p, child, dest);
    case Exited(p) =>
      var m1: Mem :| Released(a.os, m1, b.os, p, true);
    case ExecCleared(p) =>
      var m1: Mem :| Released(a.os, m1, b.os, p, false);
    case Faulted(p, vp) =>
      var now: Entry :| PageAdded(a.os, b.os, p, vp, now);
    case ExecMapped(p, vp, left) =>
      var now: Entry :| PageAdded(a.os, b.os, p, vp, now);
    case Unshared(p, vp) =>
      var was: Entry, now: Entry, newFrame: bool :| PageUnshared(a.os, b.os, p, vp, was, now, newFrame);
    case _ =>
  }

  /** A run in which every caller asks for low addresses, and every fork fits, is within the limits throughout. */
  lemma {:induction false} LowRunWithinLimits(states: seq<Machine>, evs: seq<Event>)
    requires IsRun(states, evs) && states[0].Sound() && BreaksLow(states[0].os)
    requires forall i :: 0 <= i < |evs| ==> AsksLow(evs[i]) && (evs[i].Forked? ==> WithinLimits(states[i].os, evs[i]))
    ensures AllWithinLimits(states, evs)
    decreases |evs|
  {
    if evs != [] {
      LowStep(states[0], states[1], evs[0]);
      StepLimitsExact(states[0], states[1], evs[0]);
      RunTail(states, evs);
      forall i | 0 <= i < |evs| - 1
        ensures AsksLow(evs[1..][i]) && (evs[1..][i].Forked? ==> WithinLimits(states[1..][i].os, evs[1..][i]))
      {
        assert AsksLow(evs[i + 1]);
      }
      LowRunWithinLimits(states[1..], evs[1..]);
      forall i | 0 <= i < |evs|
        ensures WithinLimits(states[i].os, evs[i])
      {
        if i > 0 {
          assert states[i] == states[1..][i - 1] && evs[i] == evs[1..][i - 1];
        }
      }
    }
  }

  /**
   Fork followed by the exit of the child restores the free bits and all counts; the parent
   keeps its translations, now write-protected.
  */
  lemma ExitUndoesFork(a: Os, b: Os, c: Os, held: Held, p: nat, child: nat)
    requires a.Inv(held) && Step(a, b, Forked(p, child)) && Step(b, c, Exited(child))
    requires a.Live(p) && ForkFits(a, p)
    ensures forall f: nat :: c.m.Free(f) == a.m.Free(f) && c.m.Refs(f) == a.m.Refs(f)
    ensures c.m.warnings == a.m.warnings && c.m.data == a.m.data
    ensures c.Live(p) && c.TreeOf(p) == TableCopy.ProtectTree(a.TreeOf(p), true)
    ensures forall q: nat :: a.Live(q) && q != p ==> c.Live(q) && c.TreeOf(q) == a.TreeOf(q)
  {
    var dest: nat :| ForkStep(a, b, p, child, dest);
    var m1: Mem :| Released(b, m1, c, child, true);
    ForkKeepsBooks(a, b, held, p, child, dest);
    ForkTrees(a, b, held, p, child, dest);
    ReleaseKeepsBooks(b, m1, c, held, child, true);
    forall f: nat
      ensures c.m.Free(f) == a.m.Free(f) && c.m.Refs(f) == a.m.Refs(f)
    {
      ForkThenExitFrame(a, b, m1, c, held, p, child, dest, f);
    }
  }

  lemma ForkThenExitFrame(a: Os, b: Os, m1: Mem, c: Os, held: Held, p: nat, child: nat, dest: nat, f: nat)
    requires a.Inv(held) && ForkStep(a, b, p, child, dest) && ForkFits(a, p)
    requires b.Live(child) && Released(b, m1, c, child, true)
    ensures c.m.Free(f) == a.m.Free(f) && c.m.Refs(f) == a.m.Refs(f)
  {
    ForkTrees(a, b, held, p, child, dest);
    WhatRemains(b.m, m1, dest, false);
    ForkFrame(a, b, held, p, child, dest, f);
    ForkRoles(a, b, held, p, child, dest, f);
    TreeCopyCounts(a.TreeOf(p), b.TreeOf(child), f);
    var d := b.TreeOf(child);
    var s := ReadTree(m1.tabs, dest, TOP_LEVEL, false);
    assert Count(TableFrames, s, f) == (if f == dest then 1 else 0) && Count(UserMaps, s, f) == 0;
    assert a.FrameInv(f, held);
    assert Count(TableFrames, d, dest) > 0;
    var m0 := a.m.(free := a.m.free[dest := false]);
    assert m0.Free(f) == (a.m.Free(f) && f != dest);
    assert b.m.Free(f) == (m0.Free(f) && Count(TableFrames, d, f) == 0);
    assert c.m.Refs(f) == m1.Refs(f);
    assert Count(UserMaps, d, f) > 0 ==> a.Total(UserMaps, f) > 0 by {
      TreeProtectedOrReached(a.TreeOf(p), f);
      TaskShare(a, p);
    }
    assert m1.Refs(f) == a.m.Refs(f);
  }
}
