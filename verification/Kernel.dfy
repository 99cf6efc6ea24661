/**
 The kernel operations on process memory: fork, exit, break, page faults and the page mapping of
 exec (kernel/src/task/process.rs, kernel/src/mm/page_alloc.rs).  The current task is the
 parameter `p`.  A false or empty result is a kernel panic; nothing is promised after it.
*/
module Kernels {
  import opened Prelude
  import opened PageTree
  import opened PhysMems
  import opened PageAllocs
  import opened TableCopy
  import opened TableFree
  import opened TreeWalk
  import opened TableMap
  import opened Memories
  import opened FrameBooks
  import opened ForkProof
  import opened PageProof
  import opened FaultProof
  import opened EagerOs
  import opened Views
  import opened Runs
  import opened Limits

  class Kernel {
    const mem: Memory
    var tasks: seq<Option<Task>>
    var nextTid: nat
    /** Frames outside the user halves of the processes, with the count each of them carries. */
    ghost var held: Held

    ghost function State(): Os
      reads this, mem, mem.alloc, mem.alloc.man.words, mem.alloc.man.counts
    {
      Os(mem.M(), tasks)
    }

    ghost function Now(): Machine
      reads this, mem, mem.alloc, mem.alloc.man.words, mem.alloc.man.counts
    {
      Machine(State(), held)
    }

    /** All frames are accounted for, and the next task id is unused. */
    ghost predicate Valid()
      reads this, mem, mem.alloc, mem.alloc.man.words, mem.alloc.man.counts
    {
      Now().Sound() && |tasks| <= nextTid + 1
    }

    constructor (mem: Memory, ghost held: Held)
      ensures this.mem == mem && this.held == held && tasks == [] && nextTid == 0
    {
      this.mem := mem;
      this.tasks := [];
      this.nextTid := 0;
      this.held := held;
    }

    // ---- fork, exit, break ----

    /** The child's task id; no free frame was left when there is none. */
    method DoFork(p: nat) returns (r: Option<nat>)
      requires Valid() && State().Live(p)
      modifies this`tasks, this`nextTid, mem`tabs, mem.alloc.man.words, mem.alloc.man.counts
      ensures r.Some? ==> r.value == old(nextTid) + 1 && !old(State()).Live(r.value)
      ensures r.Some? ==> Step(old(State()), State(), Forked(p, r.value))
      ensures r.Some? ==> (Valid() <==> ForkFits(old(State()), p))
      ensures r.None? ==> mem.M().NoneFree()
    {
      ghost var a := State();
      var newTid := nextTid + 1;
      nextTid := newTid;
      var root := tasks[p].value.root;
      var dest := mem.AllocPage();
      if dest.None? {
        return None;
      }
      ForkReady(a, held, p, dest.value);
      var ok := mem.RCopy(root, dest.value, TOP_LEVEL, true, false);
      if !ok {
        return None;
      }
      var child := Task(dest.value, tasks[p].value.brk);
      AddTask(newTid, child);
      assert ForkStep(a, State(), p, newTid, dest.value);
      ForkKeepsBooks(a, State(), held, p, newTid, dest.value);
      r := Some(newTid);
    }

    /** Puts a task in its place; the list grows by empty places. */
    method AddTask(tid: nat, task: Task)
      modifies this`tasks
      ensures |tasks| == (if |old(tasks)| <= tid then tid + 1 else |old(tasks)|) && tasks[tid] == Some(task)
      ensures forall q: nat :: q < |tasks| && q != tid ==> tasks[q] == if q < |old(tasks)| then old(tasks)[q] else None
    {
      if |tasks| <= tid {
        tasks := tasks + seq(tid + 1 - |tasks|, _ => None);
      }
      tasks := tasks[tid := Some(task)];
    }

    method FreePageTables(p: nat, userOnly: bool) returns (ghost m1: Mem)
      requires Valid() && State().Live(p)
      modifies mem`tabs, mem.alloc.man.words, mem.alloc.man.counts, mem.alloc`warnings
      ensures Freed(old(mem.M()), m1, FreeJob(tasks[p].value.root, TOP_LEVEL, userOnly, false))
      ensures userOnly ==> mem.M() == m1
      ensures !userOnly ==> mem.M() == m1.(free := mem.M().free) && mem.M().Sized() && |mem.M().free| == |m1.free|
      ensures !userOnly ==> forall f: nat :: mem.M().Free(f) == (m1.Free(f) || f == tasks[p].value.root)
    {
      ghost var a := State();
      ReleaseReady(a, held, p, userOnly);
      mem.RFree(tasks[p].value.root, TOP_LEVEL, userOnly, false);
      m1 := mem.M();
      if !userOnly {
        RootStays(a, m1, held, p);
        mem.DeallocPage(tasks[p].value.root);
      }
    }

    method DoExit(p: nat)
      requires Valid() && State().Live(p)
      modifies this`tasks, mem`tabs, mem.alloc.man.words, mem.alloc.man.counts, mem.alloc`warnings
      ensures Valid()
      ensures Step(old(State()), State(), Exited(p))
      ensures mem.M().warnings == old(mem.M().warnings)
    {
      ghost var a := State();
      ghost var m1 := FreePageTables(p, false);
      tasks := tasks[p := None];
      assert Released(a, m1, State(), p, true);
      ReleaseKeepsBooks(a, m1, State(), held, p, true);
    }

    /** Returns the old break; zero only asks. */
    method SysBrk(p: nat, brk: nat) returns (was: nat)
      requires Valid() && State().Live(p)
      modifies this`tasks
      ensures Valid() && was == old(tasks)[p].value.brk
      ensures brk == 0 ==> State() == old(State())
      ensures brk != 0 ==> Step(old(State()), State(), BrkSet(p, brk))
      ensures brk != 0 ==> tasks == old(tasks)[p := Some(Task(old(tasks)[p].value.root, brk))]
    {
      was := tasks[p].value.brk;
      if brk != 0 {
        ghost var a := State();
        tasks := tasks[p := Some(tasks[p].value.(brk := brk))];
        BrkWorld(a, State(), held, p, brk);
      }
    }

    // ---- page faults ----

    /** Gives an unmapped stack or heap page a zeroed frame; false is a panic. */
    method DemandPage(p: nat, va: nat) returns (ok: bool)
      requires Valid() && State().Live(p) && Canonical(va)
      modifies this`held, mem`tabs, mem`data, mem.alloc.man.words, mem.alloc.man.counts
      ensures ok ==> Valid() && MachineStep(old(Now()), Now(), Faulted(p, va / PAGE_BYTES))
      ensures ok ==> WritableAt(State(), p, va / PAGE_BYTES)
      ensures ok ==> (0x7FFF_FF80_0000 <= va < 0x8000_0000_0000 || va < tasks[p].value.brk) && !Blocked(old(State()).TreeOf(p), va / PAGE_BYTES)
      ensures !ok && (0x7FFF_FF80_0000 <= va < 0x8000_0000_0000 || va < tasks[p].value.brk) && !Blocked(old(State()).TreeOf(p), va / PAGE_BYTES)
        ==> mem.M().NoneFree()
    {
      ghost var a := State();
      var vp := va / PAGE_BYTES;
      if !(InStack(va) || va < tasks[p].value.brk) {
        return false;
      }
      var frame := TakeFrame();
      if frame.None? {
        return false;
      }
      AllowedPage(a, p, va);
      ok := DemandMap(p, vp, frame.value, a);
    }

    /** Maps the frame just taken and clears it. */
    method DemandMap(p: nat, vp: nat, nf: nat, ghost a: Os) returns (ok: bool)
      requires a.Inv(held) && Allowed(a, p, vp) && CanonicalPage(vp) && tasks == a.tasks && |tasks| <= nextTid + 1
      requires FrameTaken(a.m, mem.M(), nf, 1) && nf < |mem.data|
      modifies this`held, mem`tabs, mem`data, mem.alloc.man.words
      ensures ok ==> Valid() && MachineStep(Machine(a, old(held)), Now(), Faulted(p, vp))
      ensures ok ==> WritableAt(State(), p, vp) && !Blocked(a.TreeOf(p), vp)
      ensures !ok && !Blocked(a.TreeOf(p), vp) ==> mem.M().NoneFree()
    {
      ghost var m := mem.M();
      TakenMappable(a, m, held, p, vp, nf, 1, UserPageEntry(nf));
      var outcome := mem.MapTo(tasks[p].value.root, TOP_LEVEL, false, PathOf(vp), UserPageEntry(nf));
      if outcome != MapDone {
        return false;
      }
      ghost var m' := mem.M();
      mem.StorePage(nf, ZeroPage());
      DemandIsStep(a, m, m', State(), held, p, vp, nf);
      held := HeldAfter(State(), held, Faulted(p, vp));
      ok := true;
    }

    /** A free frame, with its first reference. */
    method TakeFrame() returns (r: Option<nat>)
      requires Valid()
      modifies mem.alloc.man.words, mem.alloc.man.counts
      ensures r.Some? ==> FrameTaken(old(mem.M()), mem.M(), r.value, 1) && mem.M().Sized() && r.value < |mem.data|
      ensures r.None? ==> mem.M() == old(mem.M()) && mem.M().NoneFree()
    {
      ghost var a := State();
      r := mem.AllocPage();
      if r.Some? {
        TakenUnmapped(a, held, r.value);
        mem.PageIncref(r.value);
      }
    }

    /** Makes the mapped page writable for `p` alone; false is a panic. */
    method ResolveCowFault(p: nat, va: nat) returns (ok: bool)
      requires Valid() && State().Live(p) && Canonical(va)
      modifies mem`tabs, mem`data, mem.alloc.man.words, mem.alloc.man.counts
      ensures ok ==> MachineStep(old(Now()), Now(), Unshared(p, va / PAGE_BYTES))
      ensures ok ==> (Valid() <==> CountsFit(old(State()), Unshared(p, va / PAGE_BYTES)))
      ensures ok ==> WritableAt(State(), p, va / PAGE_BYTES)
      ensures !ok ==> !Counted(old(State()), p, va / PAGE_BYTES) || mem.M().NoneFree()
    {
      ghost var a := State();
      var vp := va / PAGE_BYTES;
      var root := tasks[p].value.root;
      TreeInv(a, held, p);
      LeafIsLookup(mem.tabs, root, TOP_LEVEL, false, PathOf(vp));
      var lt := LeafTable(mem.tabs, root, TOP_LEVEL, PathOf(vp));
      if lt.None? || !EntryAt(mem.tabs, lt.value, PathOf(vp)[3]).present {
        return false;
      }
      var was := EntryAt(mem.tabs, lt.value, PathOf(vp)[3]);
      MappedFacts(a, held, p, vp, was, lt.value);
      if was.frame >= |mem.tabs| {
        return false;
      }
      ok := ResolveMapped(p, vp, was, lt.value);
      if ok {
        UnshareSound(a, State(), held, p, vp);
      }
    }

    /** A shared frame is copied, another becomes writable. */
    method ResolveMapped(p: nat, vp: nat, was: Entry, lt: nat) returns (ok: bool)
      requires Valid() && MappedAs(State(), p, vp, was, lt) && was.frame < |mem.tabs|
      modifies mem`tabs, mem`data, mem.alloc.man.words, mem.alloc.man.counts
      ensures ok ==> Step(old(State()), State(), Unshared(p, vp)) && WritableAt(State(), p, vp)
      ensures !ok ==> mem.M().NoneFree()
    {
      var count := mem.PageGetref(was.frame);
      if count > 1 {
        ok := CopyOnWrite(p, vp, was, lt);
      } else {
        ReuseFrame(p, vp, was, lt);
        ok := true;
      }
    }

    /** The other branch: the flags change in place. */
    method ReuseFrame(p: nat, vp: nat, was: Entry, lt: nat)
      requires Valid() && MappedAs(State(), p, vp, was, lt) && State().m.Refs(was.frame) <= 1
      modifies mem`tabs
      ensures Step(old(State()), State(), Unshared(p, vp)) && WritableAt(State(), p, vp)
    {
      ghost var a := State();
      MappedFacts(a, held, p, vp, was, lt);
      mem.StoreEntry(lt, PathOf(vp)[3], UserPageEntry(was.frame));
      ReuseIsRemap(a, State(), held, p, vp, was, lt);
      assert PageUnshared(a, State(), p, vp, was, UserPageEntry(was.frame), false);
    }

    /** The copying branch: a new frame with the same bytes replaces the shared one. */
    method CopyOnWrite(p: nat, vp: nat, was: Entry, lt: nat) returns (ok: bool)
      requires Valid() && MappedAs(State(), p, vp, was, lt) && State().m.Refs(was.frame) > 1
      modifies mem`tabs, mem`data, mem.alloc.man.words, mem.alloc.man.counts
      ensures ok ==> Step(old(State()), State(), Unshared(p, vp)) && WritableAt(State(), p, vp)
      ensures !ok ==> mem.M().NoneFree()
    {
      ghost var a := State();
      MappedFacts(a, held, p, vp, was, lt);
      var frame := mem.AllocPage();
      if frame.None? {
        return false;
      }
      var nf := frame.value;
      TakenUnmapped(a, held, nf);
      DropShared(vp, was, lt, nf, a);
      ghost var m := mem.M();
      ghost var m';
      ok, m' := MapCopy(p, vp, was, lt, nf, a);
      if ok {
        CopyIsStep(a, m, m', State(), held, p, vp, was, lt, nf);
      }
    }

    /** Maps the copy in place of the shared page. */
    method MapCopy(p: nat, vp: nat, was: Entry, lt: nat, nf: nat, ghost a: Os) returns (ok: bool, ghost m': Mem)
      requires a.Inv(held) && MappedAs(a, p, vp, was, lt) && a.m.Refs(was.frame) > 1
      requires CopyPrepared(a, mem.M(), vp, was, lt, nf) && tasks == a.tasks
      modifies mem`tabs, mem.alloc.man.words, mem.alloc.man.counts
      ensures ok ==> Mapped(old(mem.M()), m', TopJob(a.tasks[p].value.root, PathOf(vp), UserPageEntry(nf)))
      ensures ok ==> nf < |m'.refs| && mem.M() == m'.(refs := m'.refs[nf := (m'.refs[nf] + 1) % COUNT_LIMIT]) && mem.M().Sized()
      ensures !ok ==> mem.M().NoneFree()
    {
      ghost var m := mem.M();
      var root := tasks[p].value.root;
      UnmappedFree(a, m, held, p, vp, was, lt, nf);
      var outcome;
      outcome, m' := mem.MapAndCount(root, PathOf(vp), UserPageEntry(nf));
      ok := outcome == MapDone;
    }

    /** Copies the bytes, drops the old reference and unmaps the page. */
    method DropShared(vp: nat, was: Entry, lt: nat, nf: nat, ghost a: Os)
      requires a.m.Sized() && a.m.Free(nf) && a.m.Refs(nf) == 0 && nf < |a.m.refs|
      requires mem.M() == a.m.(free := a.m.free[nf := false]) && mem.M().Sized()
      requires lt < |a.m.tabs| && was.frame < |a.m.data| && a.m.Refs(was.frame) > 1
      modifies mem`tabs, mem`data, mem.alloc.man.counts
      ensures CopyPrepared(a, mem.M(), vp, was, lt, nf)
    {
      mem.StorePage(nf, mem.data[was.frame]);
      mem.PageDecref(was.frame);
      mem.StoreEntry(lt, PathOf(vp)[3], UNUSED);
      DroppedNumbers(a.m, mem.M(), was.frame, nf);
    }

    /** A fault raised in user mode, with the present and write bits of its error code. */
    method DoUserPageFault(p: nat, va: nat, protection: bool, write: bool) returns (ok: bool)
      requires Valid() && State().Live(p) && Canonical(va)
      modifies this`held, mem`tabs, mem`data, mem.alloc.man.words, mem.alloc.man.counts
      ensures ok ==> MachineStep(old(Now()), Now(), FaultEvent(p, va, protection && write))
      ensures ok ==> (Valid() <==> CountsFit(old(State()), FaultEvent(p, va, protection && write)))
      ensures ok ==> WritableAt(State(), p, va / PAGE_BYTES)
      ensures ok && !(protection && write) ==> 0x7FFF_FF80_0000 <= va < 0x8000_0000_0000 || va < tasks[p].value.brk
      ensures !ok && protection && write && Counted(old(State()), p, va / PAGE_BYTES)
        ==> mem.M().NoneFree()
      ensures !ok && !(protection && write) && !Blocked(old(State()).TreeOf(p), va / PAGE_BYTES) ==>
        (0x7FFF_FF80_0000 <= va < 0x8000_0000_0000 || va < tasks[p].value.brk) ==> mem.M().NoneFree()
    {
      if protection && write {
        ok := ResolveCowFault(p, va);
      } else {
        ok := DemandPage(p, va);
      }
    }

    /**
     A program sets its break to the last page and touches one address above the user half, and
     forks.  The fault is handled and the frame is lost; if the copy reaches the page, parent and
     child write the same frame, whose count stays at one.
    */
    method TouchAboveThenFork(p: nat) returns (r: Option<nat>)
      requires Valid() && State().Live(p) && !Blocked(State().TreeOf(p), PAGE_ABOVE)
      modifies this`held, this`tasks, this`nextTid, mem`tabs, mem`data, mem.alloc.man.words, mem.alloc.man.counts
      ensures r.None? ==> mem.M().NoneFree()
      ensures r.Some? ==> SharedAbove(old(Now()), Now(), p, r.value)
    {
      var was := SysBrk(p, 0xFFFF_FFFF_FFFF_F000);
      ghost var a := Now();
      var ok := DemandPage(p, PAGE_ABOVE * PAGE_BYTES);
      if !ok {
        return None;
      }
      r := ForkAbove(p, a);
    }

    /** The fork after the fault. */
    method ForkAbove(p: nat, ghost a: Machine) returns (r: Option<nat>)
      requires Valid() && a.Sound() && MachineStep(a, Now(), Faulted(p, PAGE_ABOVE)) && WritableAt(State(), p, PAGE_ABOVE)
      modifies this`tasks, this`nextTid, mem`tabs, mem.alloc.man.words, mem.alloc.man.counts
      ensures r.None? ==> mem.M().NoneFree()
      ensures r.Some? ==> SharedAbove(a, Now(), p, r.value)
    {
      ghost var b := Now();
      r := DoFork(p);
      if r.Some? {
        AboveIsLost(a, b, p);
        AboveIsShared(b, Now(), p, r.value);
      }
    }

    // ---- what a program and the kernel do with user addresses ----

    /** The page walk of a user access, and the fault if it fails; false is a panic. */
    method Access(p: nat, va: nat, write: bool) returns (ok: bool)
      requires Valid() && State().Live(p) && Canonical(va)
      modifies this`held, mem`tabs, mem`data, mem.alloc.man.words, mem.alloc.man.counts
      ensures ok ==> Accessed(old(Now()), Now(), p, va / PAGE_BYTES) && mem.M().Sized() && State().Live(p)
      ensures ok && CountsFit(old(State()), Unshared(p, va / PAGE_BYTES)) ==> Valid()
      ensures ok && va < USER_BYTES ==> Maps(State().TreeOf(p), va / PAGE_BYTES) && held == old(held)
      ensures ok && va < USER_BYTES && write ==> WritableAt(State(), p, va / PAGE_BYTES)
      ensures ok && va < USER_BYTES ==> WorldOf(State()) == After(WorldOf(old(State())), Faulted(p, va / PAGE_BYTES))
      ensures ok && va >= USER_BYTES ==> WorldOf(State()) == WorldOf(old(State()))
      ensures ok && va < USER_BYTES ==> SpaceOf(old(State()), p).Touchable(va)
      ensures !ok && va < USER_BYTES && SpaceOf(old(State()), p).Touchable(va) ==> mem.M().NoneFree()
    {
      ghost var a := Now();
      var vp := va / PAGE_BYTES;
      AccessFacts(a.os, held, p, va, UserMode, write);
      var access := Mmu(mem.tabs, tasks[p].value.root, TOP_LEVEL, PathOf(vp), UserMode, write, true);
      if access.Granted? {
        return true;
      }
      ok := DoUserPageFault(p, va, access.Denied?, write);
      if ok {
        FaultIsTouch(a, Now(), p, vp, access.Denied? && write);
      }
    }

    /**
     A user-mode store: the page walk, a fault if it fails, and the store.  `entry` is what the bytes
     around the address are as a table entry afterwards; `mid` is the machine before the store.
    */
    method UserWrite(p: nat, va: nat, value: u8, entry: Entry) returns (ok: bool, ghost mid: Machine)
      requires Valid() && State().Live(p) && Canonical(va)
      modifies this`held, mem`tabs, mem`data, mem.alloc.man.words, mem.alloc.man.counts
      ensures ok ==> Accessed(old(Now()), mid, p, va / PAGE_BYTES) && MachineStep(mid, Now(), Stored(p, va, value))
      ensures ok && va < USER_BYTES ==> Valid() && held == old(held)
      ensures ok && va < USER_BYTES ==> State().Live(p) && OneByteChanged(SpaceOf(old(State()), p), SpaceOf(State(), p), va, value)
      ensures ok && va < USER_BYTES ==> WorldOf(State()) == After(WorldOf(old(State())), Stored(p, va, value))
      ensures ok && va < USER_BYTES ==> SpaceOf(old(State()), p).Touchable(va)
      ensures !ok && va < USER_BYTES && SpaceOf(old(State()), p).Touchable(va) ==> mem.M().NoneFree()
      ensures ok && va >= USER_BYTES ==> UpperStored(old(Now()), mid, Now(), p, va, value)
    {
      ghost var a := Now();
      mid := a;
      ok := Access(p, va, true);
      if ok {
        mid := Now();
        if va < USER_BYTES {
          LowStoreFrame(mid.os, held, p, va);
        }
        ok := StoreThrough(p, va, UserMode, value, entry);
        if ok && va < USER_BYTES {
          TouchThenStore(WorldOf(a.os), p, va, value);
          StoreSound(mid, Now(), p, va, value);
          ByteChanged(a.os, State(), a.held, p, va, value);
        } else if ok {
          UpperIsStored(a, mid, Now(), p, va, value);
        }
      }
    }

    /** The store itself, through the mapping the walk finds. */
    method StoreThrough(p: nat, va: nat, mode: Mode, value: u8, entry: Entry) returns (ok: bool)
      requires State().Live(p) && mem.M().Sized() && Canonical(va)
      modifies mem`data, mem`tabs
      ensures ok <==> Granting(old(State()), p, va, mode, true).Granted?
      ensures ok ==> MachineStep(old(Now()), Now(), Stored(p, va, value))
      ensures !ok ==> mem.M() == old(mem.M())
    {
      ghost var a := State();
      var access := Mmu(mem.tabs, tasks[p].value.root, TOP_LEVEL, PathOf(va / PAGE_BYTES), mode, true, true);
      if !access.Granted? {
        return false;
      }
      if mode.UserMode? {
        UserStoreFrame(a, p, va);
      }
      if access.frame < |mem.data| {
        mem.StorePage(access.frame, StoreByte(mem.data[access.frame], va % PAGE_BYTES, value));
        mem.StoreEntry(access.frame, va % PAGE_BYTES / ENTRY_BYTES, entry);
      }
      ok := true;
    }

    /** A user-mode load; `port` is what a device answers where there is no RAM. */
    method UserRead(p: nat, va: nat, port: u8) returns (ok: bool, value: u8)
      requires Valid() && State().Live(p) && Canonical(va)
      modifies this`held, mem`tabs, mem`data, mem.alloc.man.words, mem.alloc.man.counts
      ensures ok && va < USER_BYTES ==> Valid() && held == old(held) && value == SpaceOf(old(State()), p).ReadByte(va)
      ensures ok && va < USER_BYTES ==> WorldOf(State()) == After(WorldOf(old(State())), Faulted(p, va / PAGE_BYTES))
      ensures ok && va < USER_BYTES ==> SpaceOf(old(State()), p).Touchable(va)
      ensures !ok && va < USER_BYTES && SpaceOf(old(State()), p).Touchable(va) ==> mem.M().NoneFree()
      ensures ok && va >= USER_BYTES ==> WorldOf(State()) == WorldOf(old(State()))
      ensures ok ==> Accessed(old(Now()), Now(), p, va / PAGE_BYTES) && Granting(State(), p, va, UserMode, false).Granted?
      ensures ok ==> value == ByteAt(State().m, Granting(State(), p, va, UserMode, false).frame, va % PAGE_BYTES, port)
    {
      ghost var w := WorldOf(State());
      value := 0;
      ok := Access(p, va, false);
      if ok {
        ok, value := LoadThrough(p, va, port);
        if va < USER_BYTES {
          LowRead(State(), held, p, va, port);
          TouchedReads(w, State(), p, va);
        }
      }
    }

    /** The load itself, through the mapping the walk finds. */
    method LoadThrough(p: nat, va: nat, port: u8) returns (ok: bool, value: u8)
      requires State().Live(p) && mem.M().Sized()
      ensures ok <==> Granting(State(), p, va, UserMode, false).Granted?
      ensures ok ==> value == ByteAt(State().m, Granting(State(), p, va, UserMode, false).frame, va % PAGE_BYTES, port)
    {
      var access := Mmu(mem.tabs, tasks[p].value.root, TOP_LEVEL, PathOf(va / PAGE_BYTES), UserMode, false, true);
      if !access.Granted? {
        return false, 0;
      }
      return true, if access.frame < |mem.data| then mem.data[access.frame][va % PAGE_BYTES] else port;
    }

    /** A kernel-mode store through a user pointer: only a copy-on-write fault is repaired. */
    method KernelWrite(p: nat, va: nat, value: u8, entry: Entry) returns (ok: bool, ghost mid: Machine)
      requires Valid() && State().Live(p) && Canonical(va)
      modifies mem`tabs, mem`data, mem.alloc.man.words, mem.alloc.man.counts
      ensures ok ==> mid == old(Now()) || MachineStep(old(Now()), mid, Unshared(p, va / PAGE_BYTES))
      ensures ok ==> MachineStep(mid, Now(), Stored(p, va, value))
      ensures ok && va < USER_BYTES ==> Valid()
      ensures ok && va < USER_BYTES ==> State().Live(p) && OneByteChanged(SpaceOf(old(State()), p), SpaceOf(State(), p), va, value)
      ensures ok && va < USER_BYTES ==> WorldOf(State()) == After(WorldOf(old(State())), Stored(p, va, value))
      ensures ok && va < USER_BYTES ==> va / PAGE_BYTES in SpaceOf(old(State()), p).pages
      ensures !ok && va < USER_BYTES && va / PAGE_BYTES in SpaceOf(old(State()), p).pages ==> mem.M().NoneFree()
      ensures ok && va >= USER_BYTES ==> UpperStored(old(Now()), mid, Now(), p, va, value)
    {
      ghost var a := Now();
      mid := a;
      ok := KernelAccess(p, va);
      if ok {
        mid := Now();
        if va < USER_BYTES {
          LowStoreFrame(mid.os, held, p, va);
        }
        ok := StoreThrough(p, va, KernelMode, value, entry);
        if ok && va < USER_BYTES {
          StoreSound(mid, Now(), p, va, value);
          ByteChanged(a.os, State(), a.held, p, va, value);
        } else if ok {
          UpperIsStored(a, mid, Now(), p, va, value);
        }
      }
    }

    /** The kernel's page walk for a store; a denied one is repaired by copy-on-write, and nothing else is. */
    method KernelAccess(p: nat, va: nat) returns (ok: bool)
      requires Valid() && State().Live(p) && Canonical(va)
      modifies mem`tabs, mem`data, mem.alloc.man.words, mem.alloc.man.counts
      ensures ok ==> Now() == old(Now()) || MachineStep(old(Now()), Now(), Unshared(p, va / PAGE_BYTES))
      ensures ok ==> mem.M().Sized() && State().Live(p)
      ensures ok && CountsFit(old(State()), Unshared(p, va / PAGE_BYTES)) ==> Valid()
      ensures ok && va < USER_BYTES ==> WritableAt(State(), p, va / PAGE_BYTES) && WorldOf(State()) == WorldOf(old(State()))
      ensures ok && va < USER_BYTES ==> va / PAGE_BYTES in SpaceOf(old(State()), p).pages
      ensures !ok && va < USER_BYTES && va / PAGE_BYTES in SpaceOf(old(State()), p).pages ==> mem.M().NoneFree()
    {
      ghost var a := Now();
      var vp := va / PAGE_BYTES;
      AccessFacts(a.os, held, p, va, KernelMode, true);
      var access := Mmu(mem.tabs, tasks[p].value.root, TOP_LEVEL, PathOf(vp), KernelMode, true, true);
      if access.Granted? {
        return true;
      }
      if access.NotPresent? {
        return false;
      }
      ok := ResolveCowFault(p, va);
      if ok {
        StepSized(a, Now(), p, vp);
        if va < USER_BYTES {
          UnshareRefines(a.os, State(), held, p, vp);
        }
      }
    }

    // ---- exec ----

    /** One page of a segment; a page that is mapped already, or lies in a large mapping, is left alone. */
    method ExecMapPage(p: nat, vp: nat) returns (ok: bool)
      requires Valid() && State().Live(p) && CanonicalPage(vp)
      modifies this`held, mem`tabs, mem.alloc.man.words, mem.alloc.man.counts, mem.alloc`warnings
      ensures ok ==> Valid() && ExecPageDone(old(Now()), Now(), p, vp)
      ensures !ok ==> mem.M().NoneFree()
    {
      ghost var a := State();
      var frame := mem.AllocPage();
      if frame.None? {
        return false;
      }
      var nf := frame.value;
      ghost var m := mem.M();
      TakenUnmapped(a, held, nf);
      assert m.refs == a.m.refs[nf := 0];
      assert FrameTaken(a.m, m, nf, 0);
      ok := ExecMapFrame(p, vp, nf, a);
    }

    /** The frame just taken is mapped, or given back if the mapping is refused. */
    method ExecMapFrame(p: nat, vp: nat, nf: nat, ghost a: Os) returns (ok: bool)
      requires a.Inv(held) && a.Live(p) && CanonicalPage(vp) && tasks == a.tasks
      requires FrameTaken(a.m, mem.M(), nf, 0) && nf < |a.m.tabs| && a.m.Refs(nf) == 0 && |tasks| <= nextTid + 1
      modifies this`held, mem`tabs, mem.alloc.man.words, mem.alloc.man.counts, mem.alloc`warnings
      ensures ok ==> Valid() && ExecPageDone(Machine(a, old(held)), Now(), p, vp)
      ensures !ok ==> mem.M().NoneFree()
    {
      ghost var m := mem.M();
      var root := tasks[p].value.root;
      assert Mappable(m, TopJob(root, PathOf(vp), UserPageEntry(nf)))
        && ReadTree(mem.tabs, root, TOP_LEVEL, false) == a.TreeOf(p) && nf < |mem.tabs| by {
        TakenMappable(a, m, held, p, vp, nf, 0, UserPageEntry(nf));
      }
      var outcome, m' := mem.MapAndCount(root, PathOf(vp), UserPageEntry(nf));
      if outcome == OutOfFrames {
        return false;
      }
      if outcome == MapDone {
        KeepFrame(p, vp, nf, a, m, m');
      } else {
        ReturnFrame(p, vp, nf, a, m);
      }
      ok := true;
    }

    /** The mapping was made: above the user half the frame is lost to the books. */
    ghost method KeepFrame(p: nat, vp: nat, nf: nat, a: Os, m: Mem, m': Mem)
      requires a.Inv(held) && a.Live(p) && CanonicalPage(vp) && FrameTaken(a.m, m, nf, 0)
      requires Mapped(m, m', TopJob(a.tasks[p].value.root, PathOf(vp), UserPageEntry(nf))) && nf < |m'.refs|
      requires State() == a.(m := m'.(refs := m'.refs[nf := (m'.refs[nf] + 1) % COUNT_LIMIT])) && State().m.Sized()
      requires !Blocked(a.TreeOf(p), vp)
      modifies this`held
      ensures Now().Sound() && ExecPageDone(Machine(a, old(held)), Now(), p, vp)
    {
      ExecIsStep(a, m, m', State(), held, p, vp, nf);
      ghost var ev := ExecMapped(p, vp, PageAt(mem.M(), nf));
      held := HeldAfter(State(), held, ev);
      assert MachineStep(Machine(a, old(held)), Now(), ev);
    }

    /** The mapping was refused: the frame goes back. */
    method ReturnFrame(p: nat, vp: nat, nf: nat, ghost a: Os, ghost m: Mem)
      requires a.Inv(held) && a.Live(p) && CanonicalPage(vp) && tasks == a.tasks
      requires FrameTaken(a.m, m, nf, 0) && nf < |a.m.tabs| && a.m.Refs(nf) == 0
      requires Opened(m, mem.M(), TopJob(a.tasks[p].value.root, PathOf(vp), UserPageEntry(nf)))
      requires Blocked(a.TreeOf(p), vp)
      modifies mem.alloc.man.words, mem.alloc`warnings
      ensures Now().Sound() && ExecPageDone(Machine(a, held), Now(), p, vp)
    {
      ghost var m2 := mem.M();
      FrameTakenSized(a.m, m, nf, 0);
      assert m2.Sized() && !m2.Free(nf) && nf < |mem.tabs|;
      mem.DeallocPage(nf);
      RefusedIsStep(a, m, m2, State(), held, p, vp, nf);
    }

    /** The pages of one segment, from `first` up to `end`. */
    method ExecMapRange(p: nat, first: nat, end: nat) returns (ok: bool)
      requires Valid() && State().Live(p) && first <= end
      modifies this`held, mem`tabs, mem.alloc.man.words, mem.alloc.man.counts, mem.alloc`warnings
      ensures ok ==> Loading(old(Now()), Now(), p, first, end) && |tasks| <= nextTid + 1
      ensures !ok && AllCanonical(first, end) ==> mem.M().NoneFree()
    {
      ghost var a, b := Now(), Now();
      RangeNothing(a, p, first);
      var vp := first;
      while vp < end
        invariant first <= vp <= end
        invariant b == Now() && |tasks| <= nextTid + 1
        invariant Loading(a, b, p, first, vp)
      {
        ok, b := ExecMapNext(p, first, vp, a);
        if !ok {
          return;
        }
        vp := vp + 1;
      }
      ok := true;
    }

    /** One turn of that loop. */
    method ExecMapNext(p: nat, first: nat, vp: nat, ghost a: Machine) returns (ok: bool, ghost b: Machine)
      requires first <= vp && Loading(a, Now(), p, first, vp) && |tasks| <= nextTid + 1
      modifies this`held, mem`tabs, mem.alloc.man.words, mem.alloc.man.counts, mem.alloc`warnings
      ensures b == Now() && (ok ==> Loading(a, b, p, first, vp + 1))
      ensures !ok && CanonicalPage(vp) ==> mem.M().NoneFree()
    {
      ghost var c := Now();
      if !CanonicalPage(vp) {
        return false, Now();
      }
      ok := ExecMapPage(p, vp);
      b := Now();
      if ok {
        ExecPageLoaded(c, b, p, vp);
        RangeOneMore(a, c, b, p, first, vp);
      }
    }

    /** The old user half goes and the break returns to zero. */
    method ExecClear(p: nat)
      requires Valid() && State().Live(p)
      modifies this`tasks, mem`tabs, mem.alloc.man.words, mem.alloc.man.counts, mem.alloc`warnings
      ensures Valid() && Step(old(State()), State(), ExecCleared(p))
      ensures WorldOf(State()) == After(WorldOf(old(State())), ExecCleared(p))
      ensures SameAbove(old(State()), State(), p)
    {
      ghost var a := State();
      ghost var m1 := FreePageTables(p, true);
      tasks := tasks[p := Some(tasks[p].value.(brk := 0))];
      assert Released(a, m1, State(), p, false);
      StepRefines(a, State(), held, ExecCleared(p));
      ClearedAbove(a, m1, State(), p);
    }

    /** One loadable segment: the break covers it and its pages are mapped. */
    method ExecSegment(p: nat, segment: Segment) returns (ok: bool)
      requires Valid() && State().Live(p)
      modifies this`tasks, this`held, mem`tabs, mem.alloc.man.words, mem.alloc.man.counts, mem.alloc`warnings
      ensures ok ==> Valid() && SegmentLoaded(old(Now()), Now(), p, segment)
      ensures !ok && !segment.Spans() ==> mem.M().NoneFree()
    {
      ghost var a := Now();
      var brk := Max(tasks[p].value.brk, segment.End());
      tasks := tasks[p := Some(tasks[p].value.(brk := brk))];
      BrkWorld(a.os, State(), held, p, brk);
      ghost var b := Now();
      SegmentPages(segment);
      ok := ExecMapRange(p, segment.First(), Max(segment.First(), segment.Last() + 1));
      if ok {
        BreakThenRange(a, b, Now(), p, segment);
      }
    }

    /**
     Exec for a parsed program: the old user half goes, then every loadable segment is mapped and
     the break is put behind the highest one.  No frame is lost if and only if every page of a
     segment above the user half is refused; segments inside the user half have none.
    */
    method DoExec(p: nat, segments: seq<Segment>) returns (ok: bool)
      requires Valid() && State().Live(p)
      modifies this`tasks, this`held, mem`tabs, mem.alloc.man.words, mem.alloc.man.counts, mem.alloc`warnings
      ensures ok ==> Valid() && ProgramLoaded(old(Now()), Now(), p, segments, |segments|)
      ensures !ok && (forall i :: 0 <= i < |segments| ==> !segments[i].Spans()) ==> mem.M().NoneFree()
    {
      ghost var a := Now();
      ExecClear(p);
      ClearedIsLoaded(a, Now(), p, segments);
      for i := 0 to |segments|
        invariant Valid() && State().Live(p)
        invariant ProgramLoaded(a, Now(), p, segments, i)
      {
        ok := ExecNext(p, segments, i, a);
        if !ok {
          return;
        }
      }
      ok := true;
    }

    /** One turn of that loop. */
    method ExecNext(p: nat, segments: seq<Segment>, i: nat, ghost a: Machine) returns (ok: bool)
      requires Valid() && State().Live(p) && i < |segments| && ProgramLoaded(a, Now(), p, segments, i)
      modifies this`tasks, this`held, mem`tabs, mem.alloc.man.words, mem.alloc.man.counts, mem.alloc`warnings
      ensures ok ==> Valid() && State().Live(p) && ProgramLoaded(a, Now(), p, segments, i + 1)
      ensures !ok && !segments[i].Spans() ==> mem.M().NoneFree()
    {
      ghost var b := Now();
      ok := ExecSegment(p, segments[i]);
      if ok {
        LoadOneMore(a, b, Now(), p, segments, i);
      }
    }

    // ---- buffers of drivers ----

    /** A driver takes a buffer: its frames are held, and no process notices. */
    method TakeDma(len: nat, alignment: nat) returns (r: Result<DmaBuffer, DmaError>)
      requires Valid() && len <= USIZE_MAX
      modifies this`held, mem.alloc.man.words
      ensures Valid() && (r.Err? ==> Now() == old(Now()))
      ensures r.Ok? ==> r.value.alloc == mem.alloc && MachineStep(old(Now()), Now(), DmaTaken(Frames(r.value.start, r.value.pages)))
      ensures r.Ok? ==> 0 < r.value.pages && r.value.start + r.value.pages <= |mem.M().free|
    {
      ghost var a := Now();
      r := DmaBuffer.Create(mem.alloc, len, alignment);
      match r {
        case Ok(buffer) =>
          ghost var ev := DmaTaken(Frames(buffer.start, buffer.pages));
          held := HeldAfter(State(), held, ev);
          TakenIsStep(a, Now(), buffer.start, buffer.pages);
        case Err(_) =>
      }
    }

    /** A driver drops its buffer: the frames are free again. */
    method DropDma(buffer: DmaBuffer)
      requires Valid() && buffer.alloc == mem.alloc && buffer.start + buffer.pages <= |mem.M().free|
      requires forall f :: f in Frames(buffer.start, buffer.pages) ==> f in held && held[f] == 0
      modifies this`held, mem.alloc.man.words, mem.alloc`warnings
      ensures Valid() && MachineStep(old(Now()), Now(), DmaReturned(Frames(buffer.start, buffer.pages)))
      ensures mem.M().warnings == old(mem.M().warnings)
    {
      ghost var a := Now();
      ghost var before := Fill(mem.alloc.man.Bits(), buffer.start, buffer.start + buffer.pages, true);
      HeldRun(a, before, buffer.start, buffer.pages);
      buffer.Drop(before);
      held := HeldAfter(State(), held, DmaReturned(Frames(buffer.start, buffer.pages)));
      ReturnedIsStep(a, Now(), buffer.start, buffer.pages);
    }

    // ---- boot ----

    /** Task 0 gets its own copy of the boot loader's tables; the books are right if its lower half is bare. */
    method Boot(kernelTable: nat) returns (ok: bool)
      requires tasks == [] && BootState(mem.M(), held, kernelTable)
      modifies this`tasks, mem`tabs, mem.alloc.man.words, mem.alloc.man.counts
      ensures ok ==> State().Live(0) && (Valid() <==> BootFit(old(mem.M()), kernelTable))
      ensures ok && Valid() ==> SpaceOf(State(), 0) == Space(0, map[])
      ensures !ok ==> mem.M().NoneFree()
    {
      ghost var m0 := mem.M();
      var table := mem.AllocPage();
      if table.None? {
        return false;
      }
      ghost var m1 := mem.M();
      BootReady(m0, held, kernelTable, table.value);
      ok := mem.RCopy(kernelTable, table.value, TOP_LEVEL, false, false);
      if ok {
        tasks := [Some(Task(table.value, 0))];
        BootBooks(m0, m1, State(), held, kernelTable, table.value);
      }
    }
  }

  // ---- a page above the user half ----

  /** The page of address 0xffff_9000_0000_0000. */
  const PAGE_ABOVE: nat := 0xF_FFF9_0000_0000

  /** One frame more is lost; where both map it, both may write it, and it is counted once. */
  ghost predicate SharedAbove(a: Machine, b: Machine, p: nat, child: nat) {
    && b.os.Live(p) && b.os.Live(child)
    && var f := LeafFrame(b.os, p, PAGE_ABOVE);
       && f !in a.Lost() && f in b.Lost() && b.os.m.Refs(f) == 1
       && (Maps(b.os.TreeOf(child), PAGE_ABOVE) ==>
             LeafFrame(b.os, child, PAGE_ABOVE) == f && WritableAt(b.os, p, PAGE_ABOVE) && WritableAt(b.os, child, PAGE_ABOVE))
  }

  lemma AboveIsLost(a: Machine, b: Machine, p: nat)
    requires a.Sound() && MachineStep(a, b, Faulted(p, PAGE_ABOVE)) && WritableAt(b.os, p, PAGE_ABOVE)
    ensures var f := LeafFrame(b.os, p, PAGE_ABOVE); f !in a.held && f in b.held && b.held[f] == 1 && b.os.m.Refs(f) == 1
  {
    var f := LeafFrame(b.os, p, PAGE_ABOVE);
    UpperAdd(a.os, b.os, a.held, p, PAGE_ABOVE);
    assert b.os.FrameInv(f, b.held);
  }

  lemma AboveIsShared(b: Machine, c: Machine, p: nat, child: nat)
    requires b.Sound() && Step(b.os, c.os, Forked(p, child)) && c.held == b.held && WritableAt(b.os, p, PAGE_ABOVE)
    requires var f := LeafFrame(b.os, p, PAGE_ABOVE); f in b.held && b.held[f] == 1 && b.os.m.Refs(f) == 1
    ensures c.os.Live(p) && c.os.Live(child)
    ensures var f := LeafFrame(b.os, p, PAGE_ABOVE);
      && LeafFrame(c.os, p, PAGE_ABOVE) == f && f in c.Lost() && c.os.m.Refs(f) == 1
      && (Maps(c.os.TreeOf(child), PAGE_ABOVE) ==>
            LeafFrame(c.os, child, PAGE_ABOVE) == f && WritableAt(c.os, p, PAGE_ABOVE) && WritableAt(c.os, child, PAGE_ABOVE))
  {
    var dest: nat :| ForkStep(b.os, c.os, p, child, dest);
    ForkFrames(b.os, c.os, b.held, p, child, dest);
    HeldCount(b.os, c.os, b.held, p, child, dest, LeafFrame(b.os, p, PAGE_ABOVE));
    if Maps(c.os.TreeOf(child), PAGE_ABOVE) {
      UpperPageShared(b.os, c.os, b.held, p, child, PAGE_ABOVE);
    }
  }

  // ---- accesses ----

  lemma AllowedPage(a: Os, p: nat, va: nat)
    requires a.Live(p) && (InStack(va) || va < a.tasks[p].value.brk) && Canonical(va)
    ensures Allowed(a, p, va / PAGE_BYTES) && CanonicalPage(va / PAGE_BYTES)
  {
  }

  function FaultEvent(p: nat, va: nat, cow: bool): Event {
    if cow then Unshared(p, va / PAGE_BYTES) else Faulted(p, va / PAGE_BYTES)
  }

  /** The page is mapped to a frame that has a count. */
  ghost predicate Counted(a: Os, p: nat, vp: nat) {
    a.Live(p) && Maps(a.TreeOf(p), vp) && LeafFrame(a, p, vp) < |a.m.tabs|
  }

  /** An access needs no fault, or exactly one that is handled. */
  ghost predicate Accessed(a: Machine, b: Machine, p: nat, vp: nat) {
    b == a || MachineStep(a, b, Faulted(p, vp)) || MachineStep(a, b, Unshared(p, vp))
  }

  /** The byte in RAM, or what the device says. */
  function ByteAt(m: Mem, f: nat, offset: nat, port: u8): u8 {
    if f < |m.data| && offset < |m.data[f]| then m.data[f][offset] else port
  }

  /**
   A store above the user half, after whatever fault: unless it went into a page table, or a shared
   frame was copied, all counts are exact, and it shows exactly where the frame is mapped.
  */
  ghost predicate UpperStored(a: Machine, mid: Machine, b: Machine, p: nat, va: nat, value: u8) {
    CountsFit(a.os, Unshared(p, va / PAGE_BYTES)) && CountsFit(mid.os, Stored(p, va, value)) ==>
      b.Sound() && (WorldOf(b.os) == WorldOf(a.os) <==> Unnoticed(mid.os, Stored(p, va, value)))
  }

  lemma UpperIsStored(a: Machine, mid: Machine, b: Machine, p: nat, va: nat, value: u8)
    requires a.Sound() && Accessed(a, mid, p, va / PAGE_BYTES) && MachineStep(mid, b, Stored(p, va, value))
    requires Canonical(va) && va >= USER_BYTES
    ensures UpperStored(a, mid, b, p, va, value)
  {
    var vp := va / PAGE_BYTES;
    if CountsFit(a.os, Unshared(p, vp)) {
      if MachineStep(a, mid, Faulted(p, vp)) {
        StepSound(a, mid, Faulted(p, vp));
      } else if MachineStep(a, mid, Unshared(p, vp)) {
        UpperUnshare(a.os, mid.os, a.held, p, vp);
      }
      StoreSound(mid, b, p, va, value);
    }
  }

  function LeafAccess(e: Option<Entry>, write: bool): Access {
    match e
    case None => NotPresent
    case Some(e) => if write && !e.writable then Denied else Granted(e.frame)
  }

  /** In the user half the walk says what the last-level entry says. */
  lemma AccessFacts(a: Os, held: Held, p: nat, va: nat, mode: Mode, write: bool)
    requires a.Inv(held) && a.Live(p)
    ensures va < USER_BYTES ==> Granting(a, p, va, mode, write) == LeafAccess(Lookup(a.TreeOf(p), PathOf(va / PAGE_BYTES)), write)
    ensures va < USER_BYTES ==> (Maps(a.TreeOf(p), va / PAGE_BYTES) <==> va / PAGE_BYTES in SpaceOf(a, p).pages)
    ensures va < USER_BYTES ==> (Blocked(a.TreeOf(p), va / PAGE_BYTES) <==> Maps(a.TreeOf(p), va / PAGE_BYTES))
    ensures va < USER_BYTES && Maps(a.TreeOf(p), va / PAGE_BYTES) ==> Counted(a, p, va / PAGE_BYTES)
    ensures va < USER_BYTES && Maps(a.TreeOf(p), va / PAGE_BYTES) ==>
      After(WorldOf(a), Faulted(p, va / PAGE_BYTES)) == WorldOf(a)
  {
    if va < USER_BYTES {
      var vp := va / PAGE_BYTES;
      TreeInv(a, held, p);
      UserPathOf(vp);
      MmuIsLookup(a.m.tabs, a.tasks[p].value.root, TOP_LEVEL, false, PathOf(vp), mode, write);
      BlockedIsMapped(a, held, p, vp);
      if Maps(a.TreeOf(p), vp) {
        MappedFrame(a, held, p, vp);
        TouchAgain(a, p, vp);
      }
    }
  }

  /** To the program a fault is no more than touching the page; above the user half it shows nowhere. */
  lemma FaultIsTouch(a: Machine, b: Machine, p: nat, vp: nat, unshared: bool)
    requires a.Sound() && a.os.Live(p) && CanonicalPage(vp) && (unshared && vp < USER_PAGES ==> Maps(a.os.TreeOf(p), vp))
    requires MachineStep(a, b, if unshared then Unshared(p, vp) else Faulted(p, vp))
    ensures b.os.Live(p) && b.os.m.Sized()
    ensures vp < USER_PAGES ==> b.Sound() && b.held == a.held && WorldOf(b.os) == After(WorldOf(a.os), Faulted(p, vp))
    ensures vp >= USER_PAGES ==> WorldOf(b.os) == WorldOf(a.os)
  {
    StepSound(a, b, if unshared then Unshared(p, vp) else Faulted(p, vp));
    if unshared {
      var was: Entry, now: Entry, newFrame: bool :| PageUnshared(a.os, b.os, p, vp, was, now, newFrame);
      if vp < USER_PAGES {
        TouchAgain(a.os, p, vp);
      }
    } else {
      var now: Entry :| PageAdded(a.os, b.os, p, vp, now);
    }
  }

  lemma UnshareSound(a: Os, b: Os, held: Held, p: nat, vp: nat)
    requires a.Inv(held) && Step(a, b, Unshared(p, vp))
    ensures MachineStep(Machine(a, held), Machine(b, held), Unshared(p, vp))
    ensures b.Inv(held) <==> CountsFit(a, Unshared(p, vp))
  {
    StepSound(Machine(a, held), Machine(b, held), Unshared(p, vp));
  }

  lemma StepSized(a: Machine, b: Machine, p: nat, vp: nat)
    requires MachineStep(a, b, Unshared(p, vp))
    ensures b.os.m.Sized() && b.os.Live(p)
  {
    var was: Entry, now: Entry, newFrame: bool :| PageUnshared(a.os, b.os, p, vp, was, now, newFrame);
  }

  lemma LowRead(a: Os, held: Held, p: nat, va: nat, port: u8)
    requires a.Inv(held) && a.Live(p) && va < USER_BYTES && Maps(a.TreeOf(p), va / PAGE_BYTES)
    ensures Granting(a, p, va, UserMode, false).Granted?
    ensures SpaceOf(a, p).ReadByte(va) == ByteAt(a.m, Granting(a, p, va, UserMode, false).frame, va % PAGE_BYTES, port)
  {
    AccessFacts(a, held, p, va, UserMode, false);
    MappedFrame(a, held, p, va / PAGE_BYTES);
  }

  // ---- exec ----

  type Word = n: nat | n < ALL_BYTES

  /** A 64-bit number as an address: bit 47 is copied to the bits above. */
  function Truncated(n: nat): (va: nat)
    ensures Canonical(va)
    ensures n < USER_BYTES ==> va == n
    ensures va % 0x1_0000_0000_0000 == n % 0x1_0000_0000_0000
  {
    var low := n % 0x1_0000_0000_0000;
    if low < USER_BYTES then low else low + 0xFFFF_0000_0000_0000
  }

  /** A loadable segment of the program; its end is computed modulo 2^64. */
  datatype Segment = Segment(vaddr: Word, memsz: Word) {
    function End(): nat { (vaddr + memsz) % ALL_BYTES }

    function First(): nat { Truncated(vaddr) / PAGE_BYTES }

    function Last(): nat { Truncated((vaddr + memsz + ALL_BYTES - 1) % ALL_BYTES) / PAGE_BYTES }

    predicate Covers(vp: nat) { First() <= vp <= Last() }

    ghost function Pages(): iset<nat> { iset vp: nat | Covers(vp) }

    /** The pages would have to run across the addresses that are not canonical. */
    predicate Spans() { First() < USER_PAGES <= Last() }

    predicate InUserHalf() { vaddr < USER_BYTES && 0 < vaddr + memsz <= USER_BYTES }
  }

  /** A segment of the user half covers exactly the pages of its bytes, all of the user half. */
  lemma LowSegment(s: Segment, vp: nat)
    requires s.InUserHalf()
    ensures s.Covers(vp) <==> s.vaddr / PAGE_BYTES <= vp && vp <= (s.vaddr + s.memsz - 1) / PAGE_BYTES
    ensures s.Covers(vp) ==> vp < USER_PAGES
    ensures !s.Spans() && s.End() == s.vaddr + s.memsz
  {
  }

  /** A segment above the user half covers exactly the pages of its bytes; ending with the address space, it ends at 0. */
  lemma HighSegment(s: Segment, vp: nat)
    requires s.vaddr >= 0xFFFF_8000_0000_0000 && 0 < s.memsz && s.vaddr + s.memsz <= 0x1_0000_0000_0000_0000
    ensures s.Covers(vp) <==> s.vaddr / 4096 <= vp && vp <= (s.vaddr + s.memsz - 1) / 4096
    ensures s.End() == if s.vaddr + s.memsz == 0x1_0000_0000_0000_0000 then 0 else s.vaddr + s.memsz
  {
    UpperTruncated(s.vaddr);
    UpperTruncated(s.vaddr + s.memsz - 1);
    assert (s.vaddr + s.memsz + ALL_BYTES - 1) % ALL_BYTES == s.vaddr + s.memsz - 1;
  }

  lemma UpperTruncated(n: nat)
    requires 0xFFFF_8000_0000_0000 <= n < 0x1_0000_0000_0000_0000
    ensures Truncated(n) == n
  {
    assert n == 0x1_0000_0000_0000 * 0xFFFF + (n - 0xFFFF_0000_0000_0000);
    assert n % 0x1_0000_0000_0000 == n - 0xFFFF_0000_0000_0000;
  }

  lemma SegmentPages(s: Segment)
    ensures !s.Spans() ==> AllCanonical(s.First(), Max(s.First(), s.Last() + 1))
  {
    var a, b := Truncated(s.vaddr), Truncated((s.vaddr + s.memsz + ALL_BYTES - 1) % ALL_BYTES);
    assert Canonical(a) && Canonical(b);
  }

  function Max(a: nat, b: nat): nat { if a < b then b else a }

  /** The pages of the first `n` segments. */
  ghost function ProgramPages(segments: seq<Segment>, n: nat): iset<nat>
    requires n <= |segments|
  {
    if n == 0 then iset{} else ProgramPages(segments, n - 1) + segments[n - 1].Pages()
  }

  predicate LiesIn(vp: nat, first: nat, end: nat) { first <= vp < end }

  ghost function Between(first: nat, end: nat): iset<nat> { iset vp: nat | LiesIn(vp, first, end) }

  function HighestEnd(segments: seq<Segment>, n: nat): (r: nat)
    requires n <= |segments|
    ensures forall i :: 0 <= i < n ==> segments[i].End() <= r
    ensures r == 0 || exists i :: 0 <= i < n && r == segments[i].End()
  {
    if n == 0 then 0
    else
      var end := segments[n - 1].End();
      var before := HighestEnd(segments, n - 1);
      if before < end then end else before
  }

  /** All processes but `p` see what they saw. */
  ghost predicate OthersKept(a: World, b: World, p: nat) {
    && |b| == |a| && Alive(a, p) && Alive(b, p)
    && forall q: nat :: q < |a| && q != p ==> b[q] == a[q]
  }

  ghost predicate AllCanonical(first: nat, end: nat) {
    forall vp: nat :: first <= vp < end ==> CanonicalPage(vp)
  }

  predicate UpperPage(vp: nat) { vp >= USER_PAGES && CanonicalPage(vp) }

  /** Above the user half the mapper refuses what it refused. */
  ghost predicate SameAbove(a: Os, b: Os, p: nat) {
    && a.Live(p) && b.Live(p)
    && forall vp: nat :: UpperPage(vp) ==> (Blocked(b.TreeOf(p), vp) <==> Blocked(a.TreeOf(p), vp))
  }

  /** No page of `pages` above the user half can be mapped. */
  ghost predicate AllBlocked(a: Os, p: nat, pages: iset<nat>) {
    a.Live(p) && forall vp: nat :: UpperPage(vp) && vp in pages ==> Blocked(a.TreeOf(p), vp)
  }

  /**
   The pages `pages` of the user half exist as well and the others are as they were.  Frames are
   lost if and only if one of the pages lies above the user half and could be mapped there.
  */
  ghost predicate Loaded(a: Machine, b: Machine, p: nat, pages: iset<nat>) {
    && OthersKept(WorldOf(a.os), WorldOf(b.os), p)
    && PagesGrown(WorldOf(a.os)[p].value, WorldOf(b.os)[p].value, pages)
    && a.Lost() <= b.Lost() && (b.Lost() == a.Lost() <==> AllBlocked(a.os, p, pages))
    && (b.Lost() == a.Lost() ==> SameAbove(a.os, b.os, p))
  }

  ghost predicate PagesGrown(a: Space, b: Space, pages: iset<nat>) {
    && (forall vp: nat :: vp in b.pages <==> vp in a.pages || (vp < USER_PAGES && vp in pages))
    && (forall vp: nat :: vp in a.pages ==> b.pages[vp] == a.pages[vp])
  }

  /** The pages of one segment from `first` up to `end` were handled. */
  ghost predicate Loading(a: Machine, b: Machine, p: nat, first: nat, end: nat) {
    b.Sound() && b.os.Live(p) && RangeLoaded(a, b, p, first, end)
  }

  ghost predicate RangeLoaded(a: Machine, b: Machine, p: nat, first: nat, end: nat) {
    && Loaded(a, b, p, Between(first, end))
    && WorldOf(b.os)[p].value.brk == WorldOf(a.os)[p].value.brk
  }

  /** The break covers the segment and its pages exist. */
  ghost predicate SegmentLoaded(a: Machine, b: Machine, p: nat, segment: Segment) {
    && Loaded(a, b, p, segment.Pages())
    && WorldOf(b.os)[p].value.brk == Max(WorldOf(a.os)[p].value.brk, segment.End())
  }

  /**
   Process `p` has exactly the pages of the first `n` segments in its user half, and its break is
   their highest end.  Frames are lost if and only if a segment has a page above the user half
   that could be mapped.
  */
  ghost predicate ProgramLoaded(a: Machine, b: Machine, p: nat, segments: seq<Segment>, n: nat)
    requires n <= |segments|
  {
    && OthersKept(WorldOf(a.os), WorldOf(b.os), p)
    && (forall vp: nat :: vp in WorldOf(b.os)[p].value.pages <==> vp < USER_PAGES && vp in ProgramPages(segments, n))
    && WorldOf(b.os)[p].value.brk == HighestEnd(segments, n)
    && a.Lost() <= b.Lost() && (b.Lost() == a.Lost() <==> AllBlocked(a.os, p, ProgramPages(segments, n)))
    && (b.Lost() == a.Lost() ==> SameAbove(a.os, b.os, p))
  }

  /** Loading twice is loading the pages of both. */
  lemma LoadTwice(a: Machine, b: Machine, c: Machine, p: nat, one: iset<nat>, two: iset<nat>)
    requires Loaded(a, b, p, one) && Loaded(b, c, p, two)
    ensures Loaded(a, c, p, one + two)
  {
    LoseTwice(a, b, c, p, one, two);
  }

  /** Frames are lost for both if they are lost for either. */
  lemma LoseTwice(a: Machine, b: Machine, c: Machine, p: nat, one: iset<nat>, two: iset<nat>)
    requires a.Lost() <= b.Lost() <= c.Lost()
    requires b.Lost() == a.Lost() <==> AllBlocked(a.os, p, one)
    requires c.Lost() == b.Lost() <==> AllBlocked(b.os, p, two)
    requires b.Lost() == a.Lost() ==> SameAbove(a.os, b.os, p)
    requires c.Lost() == b.Lost() ==> SameAbove(b.os, c.os, p)
    ensures c.Lost() == a.Lost() <==> AllBlocked(a.os, p, one + two)
    ensures c.Lost() == a.Lost() ==> SameAbove(a.os, c.os, p)
  {
    assert AllBlocked(a.os, p, one + two) <==> AllBlocked(a.os, p, one) && AllBlocked(a.os, p, two);
    if b.Lost() == a.Lost() {
      assert AllBlocked(b.os, p, two) <==> AllBlocked(a.os, p, two);
    }
  }

  lemma RangeNothing(a: Machine, p: nat, first: nat)
    requires a.os.Live(p)
    ensures RangeLoaded(a, a, p, first, first)
  {
  }

  lemma RangeOneMore(a: Machine, b: Machine, c: Machine, p: nat, first: nat, vp: nat)
    requires first <= vp && RangeLoaded(a, b, p, first, vp) && RangeLoaded(b, c, p, vp, vp + 1)
    ensures RangeLoaded(a, c, p, first, vp + 1)
  {
    LoadTwice(a, b, c, p, Between(first, vp), Between(vp, vp + 1));
    assert Between(first, vp + 1) == Between(first, vp) + Between(vp, vp + 1);
  }

  /** A page that is mapped or lies in a large mapping is refused; any other is mapped. */
  ghost predicate ExecPageDone(a: Machine, b: Machine, p: nat, vp: nat) {
    a.os.Live(p) && (if Blocked(a.os.TreeOf(p), vp) then MachineStep(a, b, Refused(p, vp))
                     else exists left: Page :: MachineStep(a, b, ExecMapped(p, vp, left)))
  }

  /** One page more, or one page refused. */
  lemma ExecPageLoaded(a: Machine, b: Machine, p: nat, vp: nat)
    requires a.Sound() && a.os.Live(p) && CanonicalPage(vp)
    requires ExecPageDone(a, b, p, vp)
    ensures RangeLoaded(a, b, p, vp, vp + 1)
  {
    if Blocked(a.os.TreeOf(p), vp) {
      RefusedLoaded(a, b, p, vp);
    } else {
      var left: Page :| MachineStep(a, b, ExecMapped(p, vp, left));
      AddedLoaded(a, b, p, vp, left);
    }
  }

  lemma RefusedLoaded(a: Machine, b: Machine, p: nat, vp: nat)
    requires a.Sound() && a.os.Live(p) && CanonicalPage(vp) && Blocked(a.os.TreeOf(p), vp)
    requires MachineStep(a, b, Refused(p, vp))
    ensures RangeLoaded(a, b, p, vp, vp + 1)
  {
    StepSound(a, b, Refused(p, vp));
    RefusedAboveSame(a.os, b.os, p, vp);
    if vp < USER_PAGES {
      BlockedIsMapped(a.os, a.held, p, vp);
      assert vp in SpaceOf(a.os, p).pages;
    }
    OnePage(a, b, p, vp);
  }

  lemma AddedLoaded(a: Machine, b: Machine, p: nat, vp: nat, left: Page)
    requires a.Sound() && a.os.Live(p) && CanonicalPage(vp) && !Blocked(a.os.TreeOf(p), vp)
    requires MachineStep(a, b, ExecMapped(p, vp, left))
    ensures RangeLoaded(a, b, p, vp, vp + 1)
  {
    StepSound(a, b, ExecMapped(p, vp, left));
    if vp < USER_PAGES {
      assert vp !in SpaceOf(a.os, p).pages;
      assert WorldOf(b.os) == After(WorldOf(a.os), ExecMapped(p, vp, left));
      AddedAboveSame(a.os, b.os, p, vp, left);
    }
    OnePage(a, b, p, vp);
  }

  lemma OnePage(a: Machine, b: Machine, p: nat, vp: nat)
    requires CanonicalPage(vp) && OthersKept(WorldOf(a.os), WorldOf(b.os), p) && a.os.Live(p)
    requires WorldOf(b.os)[p].value.brk == WorldOf(a.os)[p].value.brk
    requires var s, t := WorldOf(a.os)[p].value.pages, WorldOf(b.os)[p].value.pages;
      && (forall v: nat :: v in t <==> v in s || (v < USER_PAGES && v == vp))
      && (forall v: nat :: v in s ==> t[v] == s[v])
    requires a.Lost() <= b.Lost()
    requires b.Lost() == a.Lost() <==> vp < USER_PAGES || Blocked(a.os.TreeOf(p), vp)
    requires b.Lost() == a.Lost() ==> SameAbove(a.os, b.os, p)
    ensures RangeLoaded(a, b, p, vp, vp + 1)
  {
    var pages := Between(vp, vp + 1);
    assert AllBlocked(a.os, p, pages) <==> vp < USER_PAGES || Blocked(a.os.TreeOf(p), vp) by {
      if vp >= USER_PAGES {
        assert UpperPage(vp) && vp in pages;
      }
    }
    assert pages == iset{vp};
    assert PagesGrown(WorldOf(a.os)[p].value, WorldOf(b.os)[p].value, pages);
    assert Loaded(a, b, p, pages);
  }

  lemma RefusedAboveSame(a: Os, b: Os, p: nat, vp: nat)
    requires Step(a, b, Refused(p, vp))
    ensures SameAbove(a, b, p)
  {
    forall v: nat | UpperPage(v)
      ensures Blocked(b.TreeOf(p), v) <==> Blocked(a.TreeOf(p), v)
    {
      assert PathOf(v) != PathOf(vp) ==> Lookup(b.TreeOf(p), PathOf(v)) == Lookup(a.TreeOf(p), PathOf(v));
      assert Large(b.TreeOf(p), PathOf(v)) == Large(a.TreeOf(p), PathOf(v));
    }
  }

  /** A page of the user half leaves the upper half alone. */
  lemma AddedAboveSame(a: Os, b: Os, p: nat, vp: nat, left: Page)
    requires Step(a, b, ExecMapped(p, vp, left)) && vp < USER_PAGES
    ensures SameAbove(a, b, p)
  {
    var now: Entry :| PageAdded(a, b, p, vp, now) && PageAt(b.m, now.frame) == left;
    forall v: nat | UpperPage(v)
      ensures Blocked(b.TreeOf(p), v) <==> Blocked(a.TreeOf(p), v)
    {
      assert PathOf(v) != PathOf(vp);
      assert Lookup(b.TreeOf(p), PathOf(v)) == Lookup(a.TreeOf(p), PathOf(v));
      assert Large(b.TreeOf(p), PathOf(v)) == Large(a.TreeOf(p), PathOf(v));
    }
  }

  /** Clearing the user half leaves the upper half alone. */
  lemma ClearedAbove(a: Os, m1: Mem, b: Os, p: nat)
    requires Released(a, m1, b, p, false)
    ensures SameAbove(a, b, p)
  {
    var root := a.tasks[p].value.root;
    var t, s := a.TreeOf(p), b.TreeOf(p);
    forall vp: nat | UpperPage(vp)
      ensures Blocked(s, vp) <==> Blocked(t, vp)
    {
      var i := PathOf(vp)[0];
      assert t.slots[i] == SlotOf(a.m.tabs, EntryAt(a.m.tabs, root, i), i, TOP_LEVEL, false);
      assert s.slots[i] == t.slots[i];
    }
  }

  lemma BreakThenRange(a: Machine, b: Machine, c: Machine, p: nat, segment: Segment)
    requires a.os.Live(p) && b.held == a.held && b.os.m == a.os.m
    requires b.os.tasks == a.os.tasks[p := Some(a.os.tasks[p].value.(brk := Max(a.os.tasks[p].value.brk, segment.End())))]
    requires RangeLoaded(b, c, p, segment.First(), Max(segment.First(), segment.Last() + 1))
    ensures SegmentLoaded(a, c, p, segment)
  {
    var pages := segment.Pages();
    assert Between(segment.First(), Max(segment.First(), segment.Last() + 1)) == pages;
    assert b.os.TreeOf(p) == a.os.TreeOf(p) && b.Lost() == a.Lost();
    forall q: nat | a.os.Live(q)
      ensures SpaceOf(b.os, q).pages == SpaceOf(a.os, q).pages
    {
      assert b.os.TreeOf(q) == a.os.TreeOf(q);
    }
    assert AllBlocked(a.os, p, pages) <==> AllBlocked(b.os, p, pages);
    assert OthersKept(WorldOf(a.os), WorldOf(c.os), p);
  }

  lemma ClearedIsLoaded(a: Machine, b: Machine, p: nat, segments: seq<Segment>)
    requires a.os.Live(p) && b.held == a.held && SameAbove(a.os, b.os, p)
    requires WorldOf(b.os) == After(WorldOf(a.os), ExecCleared(p))
    ensures ProgramLoaded(a, b, p, segments, 0)
  {
    assert AllBlocked(a.os, p, ProgramPages(segments, 0));
  }

  lemma LoadOneMore(a: Machine, b: Machine, c: Machine, p: nat, segments: seq<Segment>, n: nat)
    requires n < |segments| && ProgramLoaded(a, b, p, segments, n) && SegmentLoaded(b, c, p, segments[n])
    ensures ProgramLoaded(a, c, p, segments, n + 1)
  {
    LoseTwice(a, b, c, p, ProgramPages(segments, n), segments[n].Pages());
    PagesTwice(WorldOf(a.os), WorldOf(b.os), WorldOf(c.os), p, ProgramPages(segments, n), segments[n].Pages());
  }

  lemma PagesTwice(a: World, b: World, c: World, p: nat, one: iset<nat>, two: iset<nat>)
    requires OthersKept(a, b, p) && OthersKept(b, c, p) && PagesGrown(b[p].value, c[p].value, two)
    requires forall vp: nat :: vp in b[p].value.pages <==> vp < USER_PAGES && vp in one
    ensures OthersKept(a, c, p)
    ensures forall vp: nat :: vp in c[p].value.pages <==> vp < USER_PAGES && vp in one + two
  {
  }

  lemma {:induction false} ProgramCovers(segments: seq<Segment>, n: nat, vp: nat)
    requires n <= |segments|
    ensures vp in ProgramPages(segments, n) <==> exists i :: 0 <= i < n && segments[i].Covers(vp)
  {
    if n > 0 {
      ProgramCovers(segments, n - 1, vp);
    }
  }

  /** A program whose segments all lie in the user half loses no frame. */
  lemma LowProgram(a: Machine, b: Machine, p: nat, segments: seq<Segment>)
    requires a.os.Live(p) && forall i :: 0 <= i < |segments| ==> segments[i].InUserHalf()
    requires ProgramLoaded(a, b, p, segments, |segments|)
    ensures b.Lost() == a.Lost()
  {
    forall vp: nat | UpperPage(vp)
      ensures vp !in ProgramPages(segments, |segments|)
    {
      ProgramCovers(segments, |segments|, vp);
      if vp in ProgramPages(segments, |segments|) {
        var i :| 0 <= i < |segments| && segments[i].Covers(vp);
        LowSegment(segments[i], vp);
      }
    }
  }

  /** Taking a frame and giving it back changes nothing. */
  lemma GivenBack(a: Mem, m: Mem, b: Mem, nf: nat)
    requires a.Sized() && a.Refs(nf) == 0 && FrameTaken(a, m, nf, 0) && nf < |a.free| && b == m.(free := m.free[nf := true])
    ensures b == a
  {
    assert a.free[nf := false][nf := true] == a.free;
    assert a.refs[nf := 0] == a.refs;
  }

  /** A refused page: the frame goes back, and at most tables on the way were opened. */
  lemma RefusedIsStep(a: Os, m: Mem, m2: Mem, b: Os, held: Held, p: nat, vp: nat, nf: nat)
    requires a.Inv(held) && a.Live(p) && CanonicalPage(vp) && FrameTaken(a.m, m, nf, 0) && a.m.Refs(nf) == 0
    requires Opened(m, m2, TopJob(a.tasks[p].value.root, PathOf(vp), UserPageEntry(nf)))
    requires b == a.(m := m2.(free := m2.free[nf := true])) && b.m.Sized()
    ensures b.Inv(held) && Step(a, b, Refused(p, vp))
  {
    var job := TopJob(a.tasks[p].value.root, PathOf(vp), UserPageEntry(nf));
    FrameTakenSized(a.m, m, nf, 0);
    GivenBack(a.m, m, m.(free := m.free[nf := true]), nf);
    assert b.m == a.m.(tabs := b.m.tabs);
    assert job.Tree(m) == a.TreeOf(p) && job.Tree(m2) == b.TreeOf(p);
    forall f: nat
      ensures Count(TableFrames, b.TreeOf(p), f) == Count(TableFrames, a.TreeOf(p), f)
    {
      assert m2.Free(f) == m.Free(f);
    }
    assert FlagsOpened(a, b, p, PathOf(vp));
    OpeningKeepsBooks(a, b, held, p, PathOf(vp));
  }

  /** Mapping a page of a segment into a frame that keeps its old bytes is one step. */
  lemma ExecIsStep(a: Os, m: Mem, m': Mem, b: Os, held: Held, p: nat, vp: nat, nf: nat)
    requires a.Inv(held) && a.Live(p) && CanonicalPage(vp) && FrameTaken(a.m, m, nf, 0)
    requires Mapped(m, m', TopJob(a.tasks[p].value.root, PathOf(vp), UserPageEntry(nf))) && nf < |m'.refs|
    requires b == a.(m := m'.(refs := m'.refs[nf := (m'.refs[nf] + 1) % COUNT_LIMIT])) && b.m.Sized()
    ensures var ev := ExecMapped(p, vp, PageAt(b.m, nf)); Step(a, b, ev) && b.Inv(HeldAfter(b, held, ev))
  {
    var now := UserPageEntry(nf);
    FrameTakenSized(a.m, m, nf, 0);
    TakenUnmapped(a, held, nf);
    assert m'.refs[nf] == m.Refs(nf) == 0;
    assert forall f: nat :: b.m.Refs(f) == if f == nf then 1 else m.Refs(f);
    MapIsRemap(a, m, m', b, held, p, vp, nf, 0, now);
    assert PageAdded(a, b, p, vp, now);
    var ev := ExecMapped(p, vp, PageAt(b.m, nf));
    StepSound(Machine(a, held), Machine(b, HeldAfter(b, held, ev)), ev);
  }

  // ---- buffers of drivers ----

  function Frames(start: nat, pages: nat): (s: set<nat>)
    ensures forall f: nat :: f in s <==> start <= f < start + pages
    decreases pages
  {
    if pages == 0 then {} else Frames(start, pages - 1) + {start + pages - 1}
  }

  lemma TakenIsStep(a: Machine, b: Machine, start: nat, pages: nat)
    requires a.Sound() && FreeRun(a.os.m.free, start, pages)
    requires b.os == a.os.(m := a.os.m.(free := Fill(a.os.m.free, start, start + pages, false)))
    requires b.held == HeldAfter(b.os, a.held, DmaTaken(Frames(start, pages)))
    ensures b.Sound() && MachineStep(a, b, DmaTaken(Frames(start, pages)))
  {
    forall f: nat
      ensures b.os.m.Free(f) == (a.os.m.Free(f) && f !in Frames(start, pages))
    {
    }
    StepSound(a, b, DmaTaken(Frames(start, pages)));
  }

  /** The frames of a held buffer are in use, so the bitmap is one with the run taken. */
  lemma HeldRun(a: Machine, before: seq<bool>, start: nat, pages: nat)
    requires a.Sound() && start + pages <= |a.os.m.free| && before == Fill(a.os.m.free, start, start + pages, true)
    requires forall f :: f in Frames(start, pages) ==> f in a.held
    ensures FreeRun(before, start, pages) && a.os.m.free == Fill(before, start, start + pages, false)
  {
    forall i | 0 <= i < |before|
      ensures a.os.m.free[i] == Fill(before, start, start + pages, false)[i]
    {
      if start <= i < start + pages {
        assert i in Frames(start, pages) && a.os.FrameInv(i, a.held);
        assert !a.os.m.Free(i);
      }
    }
  }

  lemma ReturnedIsStep(a: Machine, b: Machine, start: nat, pages: nat)
    requires a.Sound() && start + pages <= |a.os.m.free|
    requires forall f :: f in Frames(start, pages) ==> f in a.held && a.held[f] == 0
    requires b.os == a.os.(m := a.os.m.(free := Fill(a.os.m.free, start, start + pages, true)))
    requires b.held == HeldAfter(b.os, a.held, DmaReturned(Frames(start, pages)))
    ensures b.Sound() && MachineStep(a, b, DmaReturned(Frames(start, pages)))
  {
    forall f: nat
      ensures b.os.m.Free(f) == (a.os.m.Free(f) || f in Frames(start, pages))
      ensures b.os.m.Free(f) ==> f < |b.os.m.refs|
    {
      assert f in Frames(start, pages) ==> f < |a.os.m.tabs| by {
        assert a.os.FrameInv(f, a.held);
      }
    }
    StepSound(a, b, DmaReturned(Frames(start, pages)));
  }

  // ---- boot ----

  /** Before the first process: every frame is free without references, or held. */
  ghost predicate BootState(m: Mem, held: Held, kernelTable: nat) {
    && (forall f: nat :: f in held ==> held[f] == 0)
    && m.Sized()
    && (forall f: nat :: m.Refs(f) == 0)
    && (forall f: nat :: f < |m.tabs| ==> (m.Free(f) <==> f !in held))
    && (forall f: nat :: f in held ==> f < |m.tabs|)
    && OwnsTables(m, ReadTree(m.tabs, kernelTable, TOP_LEVEL, false))
    && MapsFrames(m, ReadTree(m.tabs, kernelTable, TOP_LEVEL, false))
  }

  /** The copy meets no mapping in the lower half, and no table there that is closed to writing. */
  ghost predicate BootFit(m: Mem, kernelTable: nat) {
    forall i :: 0 <= i < USER_HALF ==> Bare(ReadTree(m.tabs, kernelTable, TOP_LEVEL, false).slots[i])
  }

  ghost predicate Bare(s: Slot)
    decreases s
  {
    match s
    case Absent => true
    case Leaf(_, _) => false
    case Sub(e, _, t) => TooHigh(e) || (e.writable && forall i :: 0 <= i < |t.slots| ==> Bare(t.slots[i]))
  }

  /** The copy of a bare slot maps nothing and has the shape of a user half. */
  lemma {:induction false} BareCopy(s: Slot, d: Slot)
    requires Bare(s) && SlotCopy(s, d, false)
    ensures SlotShape(d) && NoUserMaps(d) && !d.Leaf?
    decreases s
  {
    if s.Sub? && !TooHigh(s.e) {
      forall i | 0 <= i < |d.tree.slots|
        ensures SlotShape(d.tree.slots[i]) && NoUserMaps(d.tree.slots[i])
      {
        assert SlotCopy(s.tree.slots[i], d.tree.slots[i], false);
        BareCopy(s.tree.slots[i], d.tree.slots[i]);
      }
      forall g: nat
        ensures SlotCount(UserMaps, d, g) == 0 && SlotCount(WritableMaps, d, g) == 0
      {
        SlotsAllZero(UserMaps, d.tree.slots, g);
        SlotsAllZero(WritableMaps, d.tree.slots, g);
      }
    }
  }

  /** The copy of a table of the user half that is not bare maps a frame, or has not the shape. */
  lemma {:induction false} NotBareCopy(tabs: Tables, f: nat, level: nat, d: Tree) returns (g: nat)
    requires level < TOP_LEVEL && TreeCopy(ReadTree(tabs, f, level, true), d, false)
    requires exists i :: 0 <= i < ENTRIES && !Bare(ReadTree(tabs, f, level, true).slots[i])
    ensures !UserShape(d) || Count(UserMaps, d, g) > 0
    decreases level
  {
    var t := ReadTree(tabs, f, level, true);
    var i :| 0 <= i < ENTRIES && !Bare(t.slots[i]);
    var e := EntryAt(tabs, f, i);
    assert t.slots[i] == SlotOf(tabs, e, i, level, true);
    assert SlotCopy(t.slots[i], d.slots[i], false);
    g := e.frame;
    if t.slots[i].Leaf? {
      SlotWithin(UserMaps, d, i, g);
    } else if !e.writable {
      assert !SlotShape(d.slots[i]);
    } else {
      g := NotBareCopy(tabs, e.frame, level - 1, d.slots[i].tree);
      SlotWithin(UserMaps, d, i, g);
      if !UserShape(d.slots[i].tree) {
        assert !SlotShape(d.slots[i]);
      }
    }
  }

  /** Tables outside the user half hold no user mapping. */
  ghost predicate NoUserMaps(s: Slot) {
    forall g: nat :: SlotCount(UserMaps, s, g) == 0 && SlotCount(WritableMaps, s, g) == 0
  }

  lemma {:induction false} KernelTree(tabs: Tables, f: nat, level: nat)
    requires level < TOP_LEVEL
    ensures UserShape(ReadTree(tabs, f, level, false))
    ensures forall g: nat :: Count(UserMaps, ReadTree(tabs, f, level, false), g) == 0
    ensures forall g: nat :: Count(WritableMaps, ReadTree(tabs, f, level, false), g) == 0
    decreases level
  {
    var t := ReadTree(tabs, f, level, false);
    forall i | 0 <= i < ENTRIES
      ensures SlotShape(t.slots[i]) && NoUserMaps(t.slots[i])
    {
      var e := EntryAt(tabs, f, i);
      assert t.slots[i] == SlotOf(tabs, e, i, level, false);
      if t.slots[i].Sub? {
        KernelTree(tabs, e.frame, level - 1);
        assert t.slots[i].tree == ReadTree(tabs, e.frame, level - 1, false);
      }
      forall g: nat
        ensures SlotCount(UserMaps, t.slots[i], g) == 0 && SlotCount(WritableMaps, t.slots[i], g) == 0
      {
        if t.slots[i].Sub? {
          assert Count(UserMaps, t.slots[i].tree, g) == 0 && Count(WritableMaps, t.slots[i].tree, g) == 0;
        }
      }
    }
    assert forall i :: 0 <= i < ENTRIES ==> NoUserMaps(t.slots[i]);
    forall g: nat
      ensures Count(UserMaps, t, g) == 0 && Count(WritableMaps, t, g) == 0
    {
      SlotsAllZero(UserMaps, t.slots, g);
      SlotsAllZero(WritableMaps, t.slots, g);
    }
  }

  /** The copied top table, when its source is bare. */
  lemma KernelTop(tabs: Tables, f: nat, t: Tree)
    requires TreeCopy(t, ReadTree(tabs, f, TOP_LEVEL, false), false) && |t.slots| == ENTRIES
    requires forall i :: 0 <= i < USER_HALF ==> Bare(t.slots[i])
    ensures Shape(ReadTree(tabs, f, TOP_LEVEL, false), TOP_LEVEL)
    ensures forall g: nat :: Count(UserMaps, ReadTree(tabs, f, TOP_LEVEL, false), g) == 0
    ensures forall g: nat :: Count(WritableMaps, ReadTree(tabs, f, TOP_LEVEL, false), g) == 0
  {
    var d := ReadTree(tabs, f, TOP_LEVEL, false);
    forall i | 0 <= i < ENTRIES
      ensures SlotShape(d.slots[i]) && NoUserMaps(d.slots[i]) && (i < USER_HALF ==> !d.slots[i].Leaf?)
    {
      if i < USER_HALF {
        assert SlotCopy(t.slots[i], d.slots[i], false);
        BareCopy(t.slots[i], d.slots[i]);
      } else {
        KernelSlot(tabs, f, i);
      }
    }
    forall g: nat
      ensures Count(UserMaps, d, g) == 0 && Count(WritableMaps, d, g) == 0
    {
      assert forall i :: 0 <= i < ENTRIES ==> NoUserMaps(d.slots[i]);
      SlotsAllZero(UserMaps, d.slots, g);
      SlotsAllZero(WritableMaps, d.slots, g);
    }
  }

  lemma KernelSlot(tabs: Tables, f: nat, i: nat)
    requires USER_HALF <= i < ENTRIES
    ensures var s := ReadTree(tabs, f, TOP_LEVEL, false).slots[i]; SlotShape(s) && NoUserMaps(s)
  {
    var s := ReadTree(tabs, f, TOP_LEVEL, false).slots[i];
    var e := EntryAt(tabs, f, i);
    assert s == SlotOf(tabs, e, i, TOP_LEVEL, false);
    if s.Sub? {
      KernelTree(tabs, e.frame, TOP_LEVEL - 1);
      assert s.tree == ReadTree(tabs, e.frame, TOP_LEVEL - 1, false);
    }
    forall g: nat
      ensures SlotCount(UserMaps, s, g) == 0 && SlotCount(WritableMaps, s, g) == 0
    {
      if s.Sub? {
        assert Count(UserMaps, s.tree, g) == 0 && Count(WritableMaps, s.tree, g) == 0;
      }
    }
  }

  lemma OneSlot(k: Kind, s: Slot, f: nat)
    ensures SlotsCount(k, [s], f) == SlotCount(k, s, f)
  {
    assert [s][1..] == [];
  }

  lemma BootReady(m0: Mem, held: Held, kernelTable: nat, table: nat)
    requires BootState(m0, held, kernelTable) && m0.Free(table)
    ensures Copyable(m0.(free := m0.free[table := false]), CopyJob(kernelTable, table, TOP_LEVEL, false, false))
  {
    SizedAfterTake(m0, table);
  }

  /** All frames are accounted for exactly if the lower half was bare; then the first process sees nothing there. */
  lemma BootBooks(m0: Mem, m1: Mem, b: Os, held: Held, kernelTable: nat, table: nat)
    requires BootState(m0, held, kernelTable) && m0.Free(table) && m1 == m0.(free := m0.free[table := false])
    requires Copied(m1, b.m, CopyJob(kernelTable, table, TOP_LEVEL, false, false))
    requires b.tasks == [Some(Task(table, 0))]
    ensures b.Inv(held) <==> BootFit(m0, kernelTable)
    ensures b.Live(0) && (b.Inv(held) ==> SpaceOf(b, 0) == Space(0, map[]))
  {
    var job := CopyJob(kernelTable, table, TOP_LEVEL, false, false);
    CopiedTrees(m1, b.m, job);
    if BootFit(m0, kernelTable) {
      BootFits(m0, m1, b, held, kernelTable, table);
    } else {
      BootUnfit(m0, m1, b, held, kernelTable, table);
    }
  }

  /** Where the frames of the copied tree are. */
  lemma BootFrame(m0: Mem, m1: Mem, b: Os, held: Held, kernelTable: nat, table: nat, f: nat)
    requires BootState(m0, held, kernelTable) && m0.Free(table) && m1 == m0.(free := m0.free[table := false])
    requires Copied(m1, b.m, CopyJob(kernelTable, table, TOP_LEVEL, false, false))
    requires b.tasks == [Some(Task(table, 0))]
    ensures b.Live(0) && (forall k: Kind :: b.Total(k, f) == Count(k, b.TreeOf(0), f))
    ensures b.m.Free(f) == (m0.Free(f) && Count(TableFrames, b.TreeOf(0), f) == 0)
    ensures Count(TableFrames, b.TreeOf(0), f) <= 1 && (Count(TableFrames, b.TreeOf(0), f) > 0 ==> m0.Free(f))
    ensures |b.m.tabs| == |m0.tabs| && (f < |m0.tabs| ==> b.m.Refs(f) == Count(UserMaps, b.TreeOf(0), f) % COUNT_LIMIT)
  {
    var d := b.TreeOf(0);
    SizedAfterTake(m0, table);
    assert b.Forest() == [Sub(UNUSED, false, d)];
    assert Count(TableFrames, d, table) > 0;
    forall k: Kind
      ensures b.Total(k, f) == Count(k, d, f)
    {
      OneSlot(k, Sub(UNUSED, false, d), f);
    }
    assert m1.Refs(f) == m0.Refs(f) == 0;
    assert m1.Free(f) == (m0.Free(f) && f != table);
    assert b.m.Free(f) == (m1.Free(f) && Count(TableFrames, d, f) == 0);
  }

  lemma BootFits(m0: Mem, m1: Mem, b: Os, held: Held, kernelTable: nat, table: nat)
    requires BootState(m0, held, kernelTable) && m0.Free(table) && m1 == m0.(free := m0.free[table := false])
    requires Copied(m1, b.m, CopyJob(kernelTable, table, TOP_LEVEL, false, false))
    requires b.tasks == [Some(Task(table, 0))] && BootFit(m0, kernelTable)
    ensures b.Inv(held) && SpaceOf(b, 0) == Space(0, map[])
  {
    var d := b.TreeOf(0);
    CopiedTrees(m1, b.m, CopyJob(kernelTable, table, TOP_LEVEL, false, false));
    KernelTop(b.m.tabs, table, ReadTree(m0.tabs, kernelTable, TOP_LEVEL, false));
    forall f: nat
      ensures b.FrameInv(f, held)
    {
      BootFrame(m0, m1, b, held, kernelTable, table, f);
    }
    assert b.Inv(held);
    forall vp: nat | vp < USER_PAGES
      ensures !Maps(d, vp)
    {
      if Maps(d, vp) {
        MappedFrame(b, held, 0, vp);
        BootFrame(m0, m1, b, held, kernelTable, table, FrameAt(d, PathOf(vp)).value);
      }
    }
    assert PagesOf(b.m, d) == map[];
  }

  lemma BootUnfit(m0: Mem, m1: Mem, b: Os, held: Held, kernelTable: nat, table: nat)
    requires BootState(m0, held, kernelTable) && m0.Free(table) && m1 == m0.(free := m0.free[table := false])
    requires Copied(m1, b.m, CopyJob(kernelTable, table, TOP_LEVEL, false, false))
    requires b.tasks == [Some(Task(table, 0))] && !BootFit(m0, kernelTable)
    ensures !b.Inv(held)
  {
    CopiedTrees(m1, b.m, CopyJob(kernelTable, table, TOP_LEVEL, false, false));
    var g := NotBareTop(m0.tabs, kernelTable, b.TreeOf(0));
    if Shape(b.TreeOf(0), TOP_LEVEL) {
      BootFrame(m0, m1, b, held, kernelTable, table, g);
      assert !b.FrameInv(g, held);
    }
  }

  lemma NotBareTop(tabs: Tables, f: nat, d: Tree) returns (g: nat)
    requires TreeCopy(ReadTree(tabs, f, TOP_LEVEL, false), d, false)
    requires exists i :: 0 <= i < USER_HALF && !Bare(ReadTree(tabs, f, TOP_LEVEL, false).slots[i])
    ensures !Shape(d, TOP_LEVEL) || Count(UserMaps, d, g) > 0
  {
    var t := ReadTree(tabs, f, TOP_LEVEL, false);
    var i :| 0 <= i < USER_HALF && !Bare(t.slots[i]);
    var e := EntryAt(tabs, f, i);
    assert t.slots[i] == SlotOf(tabs, e, i, TOP_LEVEL, false);
    assert SlotCopy(t.slots[i], d.slots[i], false);
    g := 0;
    if t.slots[i].Sub? && e.writable {
      g := NotBareCopy(tabs, e.frame, TOP_LEVEL - 1, d.slots[i].tree);
      SlotWithin(UserMaps, d, i, g);
    }
    if !SlotShape(d.slots[i]) || d.slots[i].Leaf? {
      assert !Shape(d, TOP_LEVEL);
    }
  }

  /** A demand fault: the frame taken, mapped and zeroed is one step. */
  lemma DemandIsStep(a: Os, m: Mem, m': Mem, b: Os, held: Held, p: nat, vp: nat, nf: nat)
    requires a.Inv(held) && a.Live(p) && CanonicalPage(vp) && Allowed(a, p, vp) && FrameTaken(a.m, m, nf, 1) && nf < |m'.data|
    requires Mapped(m, m', TopJob(a.tasks[p].value.root, PathOf(vp), UserPageEntry(nf)))
    requires b == a.(m := m'.(data := m'.data[nf := ZeroPage()])) && b.m.Sized()
    ensures Step(a, b, Faulted(p, vp)) && b.Inv(HeldAfter(b, held, Faulted(p, vp))) && WritableAt(b, p, vp)
  {
    var now := UserPageEntry(nf);
    FrameTakenSized(a.m, m, nf, 1);
    TakenUnmapped(a, held, nf);
    assert forall f: nat :: b.m.Refs(f) == m.Refs(f);
    MapIsRemap(a, m, m', b, held, p, vp, nf, 1, now);
    assert PageAdded(a, b, p, vp, now) && PageAt(b.m, nf) == ZeroPage();
    StepSound(Machine(a, held), Machine(b, HeldAfter(b, held, Faulted(p, vp))), Faulted(p, vp));
  }

  lemma DroppedNumbers(a: Mem, m: Mem, was: nat, nf: nat)
    requires a.Sized() && a.Free(nf) && was < |a.refs| && a.Refs(was) > 0
    requires m.free == a.free[nf := false] && m.refs == a.refs[was := (a.refs[was] + COUNT_LIMIT - 1) % COUNT_LIMIT]
    ensures forall f: nat :: m.Free(f) == (a.Free(f) && f != nf)
    ensures forall f: nat :: m.Refs(f) == if f == was then a.Refs(f) - 1 else a.Refs(f)
  {
  }

  /** After the page was dropped the copy can be mapped there. */
  lemma UnmappedFree(a: Os, m: Mem, held: Held, p: nat, vp: nat, was: Entry, lt: nat, nf: nat)
    requires a.Inv(held) && MappedAs(a, p, vp, was, lt) && Unmapped(a, m, vp, was, lt, nf)
    ensures Mappable(m, TopJob(a.tasks[p].value.root, PathOf(vp), UserPageEntry(nf)))
    ensures var t := ReadTree(m.tabs, a.tasks[p].value.root, TOP_LEVEL, false); Lookup(t, PathOf(vp)).None? && !Large(t, PathOf(vp))
  {
    UnmappedMappable(a, m, held, p, vp, was, lt, nf);
    MappedNotLarge(a.TreeOf(p), PathOf(vp));
  }

  lemma {:induction false} MappedNotLarge(t: Tree, path: Path)
    requires Lookup(t, path).Some?
    ensures !Large(t, path)
    decreases path
  {
    if t.slots[path[0]].Sub? {
      MappedNotLarge(t.slots[path[0]].tree, path[1..]);
    }
  }

  /** The shared page was copied and unmapped. */
  ghost predicate CopyPrepared(a: Os, m: Mem, vp: nat, was: Entry, lt: nat, nf: nat) {
    && Unmapped(a, m, vp, was, lt, nf) && m.Refs(nf) == 0 && nf < |a.m.refs|
    && was.frame < |a.m.data| == |a.m.refs| && m.data == a.m.data[nf := a.m.data[was.frame]]
  }

  /** A copying copy-on-write fault is one step. */
  lemma CopyIsStep(a: Os, m: Mem, m': Mem, b: Os, held: Held, p: nat, vp: nat, was: Entry, lt: nat, nf: nat)
    requires a.Inv(held) && MappedAs(a, p, vp, was, lt) && a.m.Refs(was.frame) > 1
    requires CopyPrepared(a, m, vp, was, lt, nf)
    requires Mapped(m, m', TopJob(a.tasks[p].value.root, PathOf(vp), UserPageEntry(nf)))
    requires b == a.(m := m'.(refs := m'.refs[nf := (m'.refs[nf] + 1) % COUNT_LIMIT])) && b.m.Sized()
    ensures Step(a, b, Unshared(p, vp)) && WritableAt(b, p, vp)
  {
    var now := UserPageEntry(nf);
    CopyCounted(a, m, m', b, vp, was, lt, nf);
    CopyIsRemap(a, m, m', b, held, p, vp, was, lt, nf);
    assert PageUnshared(a, b, p, vp, was, now, true);
  }

  lemma CopyCounted(a: Os, m: Mem, m': Mem, b: Os, vp: nat, was: Entry, lt: nat, nf: nat)
    requires a.m.Sized() && CopyPrepared(a, m, vp, was, lt, nf) && m'.refs == m.refs && m'.data == m.data && m'.SameShape(m)
    requires b == a.(m := m'.(refs := m'.refs[nf := (m'.refs[nf] + 1) % COUNT_LIMIT]))
    ensures forall f: nat :: b.m.Refs(f) == if f == nf then m'.Refs(f) + 1 else m'.Refs(f)
    ensures DataOnly(a.m, b.m, nf) && PageAt(b.m, nf) == PageAt(a.m, was.frame)
    ensures b.m.SameShape(m')
  {
    assert m'.refs[nf] == m.Refs(nf) == 0;
  }

  /** Touching a page changes no byte. */
  lemma TouchedReads(w: World, b: Os, p: nat, va: nat)
    requires Alive(w, p) && b.Live(p) && WorldOf(b) == After(w, Faulted(p, va / PAGE_BYTES))
    ensures SpaceOf(b, p).ReadByte(va) == w[p].value.ReadByte(va)
  {
    assert WorldOf(b)[p] == Some(w[p].value.Touch(va / PAGE_BYTES));
  }

  /** One store of the eager memory, byte by byte. */
  lemma ByteChanged(a: Os, b: Os, held: Held, p: nat, va: nat, value: u8)
    requires a.Inv(held) && a.Live(p) && |b.tasks| == |a.tasks|
    requires WorldOf(b) == After(WorldOf(a), Stored(p, va, value))
    ensures b.Live(p) && OneByteChanged(SpaceOf(a, p), SpaceOf(b, p), va, value)
  {
    SeesWholePages(a, held, p);
    WriteThenRead(SpaceOf(a, p), va, value);
    assert WorldOf(b)[p] == Some(SpaceOf(a, p).WriteByte(va, value));
  }

  lemma TouchThenStore(w: World, p: nat, va: nat, value: u8)
    requires Alive(w, p)
    ensures After(After(w, Faulted(p, va / PAGE_BYTES)), Stored(p, va, value)) == After(w, Stored(p, va, value))
  {
    var s, vp := w[p].value, va / PAGE_BYTES;
    assert s.Touch(vp).WriteByte(va, value).pages == s.WriteByte(va, value).pages;
  }

  lemma TouchAgain(a: Os, p: nat, vp: nat)
    requires a.Live(p) && vp in SpaceOf(a, p).pages
    ensures After(WorldOf(a), Faulted(p, vp)) == WorldOf(a)
  {
    SamePageAgain(SpaceOf(a, p), vp, SpaceOf(a, p).pages[vp]);
    assert WorldOf(a)[p := Some(SpaceOf(a, p))] == WorldOf(a);
  }

  /** The root of a released tree is still in use until it is given back itself. */
  lemma RootStays(a: Os, m1: Mem, held: Held, p: nat)
    requires a.Inv(held) && a.Live(p)
    requires Freed(a.m, m1, FreeJob(a.tasks[p].value.root, TOP_LEVEL, false, false))
    ensures a.tasks[p].value.root < |m1.tabs| && !m1.Free(a.tasks[p].value.root)
  {
    var root := a.tasks[p].value.root;
    TreeInv(a, held, p);
    WhatRemains(a.m, m1, root, false);
    assert Count(TableFrames, a.TreeOf(p), root) > 0;
  }
}
