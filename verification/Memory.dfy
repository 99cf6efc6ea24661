/**
 The physical memory of the machine with the kernel operations on page tables:
 `r_copy`, `r_free`, and the mapper's walk (kernel/src/task/process.rs, kernel/src/mm/page_alloc.rs).
*/
module Memories {
  import opened Prelude
  import opened PageTree
  import opened PhysMems
  import opened PageAllocs
  import opened TableCopy
  import opened TableFree
  import opened TreeWalk
  import opened TableMap

  datatype MapOutcome = MapDone | PageAlreadyMapped | ParentEntryHugePage | OutOfFrames

  class Memory {
    const alloc: PageAlloc
    /** Each frame seen as a page table, and seen as bytes. */
    var tabs: Tables
    var data: seq<Page>

    constructor (alloc: PageAlloc, tabs: Tables, data: seq<Page>)
      ensures this.alloc == alloc && this.tabs == tabs && this.data == data
    {
      this.alloc := alloc;
      this.tabs := tabs;
      this.data := data;
    }

    ghost function M(): Mem
      reads this, alloc, alloc.man.words, alloc.man.counts
    {
      Mem(alloc.man.Bits(), alloc.man.Counts(), tabs, data, alloc.warnings)
    }

    /** One more reference to a frame; wraps at 256. */
    method PageIncref(frame: nat)
      requires M().Sized() && frame < |tabs|
      modifies alloc.man.counts
      ensures M() == old(M()).(refs := old(M()).refs[frame := (old(M()).refs[frame] + 1) % COUNT_LIMIT])
      ensures M().Sized()
    {
      alloc.man.Incref(frame);
      SizedAfterCount(old(M()), frame, (old(M()).refs[frame] + 1) % COUNT_LIMIT);
    }

    method PageDecref(frame: nat)
      requires M().Sized() && frame < |tabs|
      modifies alloc.man.counts
      ensures M() == old(M()).(refs := old(M()).refs[frame := (old(M()).refs[frame] + COUNT_LIMIT - 1) % COUNT_LIMIT])
      ensures M().Sized()
    {
      alloc.man.Decref(frame);
      SizedAfterCount(old(M()), frame, (old(M()).refs[frame] + COUNT_LIMIT - 1) % COUNT_LIMIT);
    }

    method PageGetref(frame: nat) returns (n: nat)
      requires frame < |M().refs|
      ensures n == M().Refs(frame)
    {
      var c := alloc.man.Getref(frame);
      n := c as nat;
    }

    method AllocPage() returns (r: Option<nat>)
      requires M().Sized()
      modifies alloc.man.words
      ensures r.Some? ==> old(M()).Free(r.value) && r.value < |tabs| && M() == old(M()).(free := old(M()).free[r.value := false])
      ensures r.None? ==> M() == old(M()) && M().NoneFree()
      ensures M().Sized()
    {
      r := alloc.AllocPhysicalPage();
      if r.Some? {
        assert old(M()).Free(r.value);
        SizedAfterTake(old(M()), r.value);
      }
    }

    method DeallocPage(frame: nat)
      requires M().Sized() && frame < |tabs|
      modifies alloc.man.words, alloc`warnings
      ensures M() == old(M()).(free := old(M()).free[frame := true],
                               warnings := old(M()).warnings + if old(M()).Free(frame) then 1 else 0)
      ensures M().Sized() && forall f: nat :: M().Free(f) == (old(M()).Free(f) || f == frame)
    {
      alloc.DeallocPhysicalPage(frame);
      SizedAfterReturn(old(M()), frame, alloc.warnings);
    }

    method StoreEntry(table: nat, i: nat, e: Entry)
      requires M().Sized() && table < |tabs| && i < ENTRIES
      modifies this`tabs
      ensures tabs == old(tabs)[table := old(tabs)[table][i := e]]
      ensures M() == old(M()).(tabs := tabs) && M().Sized()
      ensures StoredAt(old(tabs), tabs, table, i, e)
    {
      tabs := tabs[table := tabs[table][i := e]];
      SizedAfterStore(old(M()), tabs);
    }

    method StorePage(frame: nat, page: Page)
      requires M().Sized() && frame < |data| && |page| == PAGE_BYTES
      modifies this`data
      ensures M() == old(M()).(data := old(data)[frame := page]) && M().Sized()
    {
      data := data[frame := page];
      SizedAfterData(old(M()), frame, page);
    }

    /** Copies the tables below `src` into `dest`; false when the free frames ran out (the kernel panics). */
    method RCopy(src: nat, dest: nat, level: nat, copying: bool, user: bool) returns (ok: bool)
      requires 1 <= level <= TOP_LEVEL
      requires Copyable(M(), CopyJob(src, dest, level, copying, user))
      modifies this`tabs, alloc.man.words, alloc.man.counts
      ensures ok ==> Copied(old(M()), M(), CopyJob(src, dest, level, copying, user))
      ensures !ok ==> M().NoneFree()
      decreases level, 1
    {
      ghost var m0 := M();
      ghost var job := CopyJob(src, dest, level, copying, user);
      tabs := tabs[dest := ZERO_TABLE];
      CopyStart(m0, job);
      for i := 0 to ENTRIES
        invariant CopiedUpTo(m0, M(), job, i)
      {
        ok := CopyEntry(src, dest, level, copying, user, i, m0);
        if !ok {
          return;
        }
      }
      ok := true;
    }

    /** One turn of the loop of `r_copy`. */
    method CopyEntry(src: nat, dest: nat, level: nat, copying: bool, user: bool, i: nat, ghost m0: Mem) returns (ok: bool)
      requires 1 <= level <= TOP_LEVEL && i < ENTRIES
      requires Copyable(m0, CopyJob(src, dest, level, copying, user))
      requires CopiedUpTo(m0, M(), CopyJob(src, dest, level, copying, user), i)
      modifies this`tabs, alloc.man.words, alloc.man.counts
      ensures ok ==> CopiedUpTo(m0, M(), CopyJob(src, dest, level, copying, user), i + 1)
      ensures !ok ==> M().NoneFree()
      decreases level, 0
    {
      ghost var m := M();
      ghost var job := CopyJob(src, dest, level, copying, user);
      CopyApart(m0, m, job, i);
      var entry := tabs[src][i];
      assert job.Source(m0).slots[i] == job.Source(m).slots[i] == SlotOf(tabs, entry, i, level, user);
      if !entry.present {
        StepSkip(m0, m, job, i);
        return true;
      }
      if level == 1 || entry.huge {
        CopyLeaf(src, dest, level, copying, user, i, entry, m0);
        return true;
      }
      if entry.frame * PAGE_BYTES > HIGH_ADDRESS {
        StepSkip(m0, m, job, i);
        return true;
      }
      ok := CopyTable(src, dest, level, copying, user, i, entry, m0);
    }

    /** The turn for a table: a new table is linked in and filled by the recursive call. */
    method CopyTable(src: nat, dest: nat, level: nat, copying: bool, user: bool, i: nat, entry: Entry, ghost m0: Mem) returns (ok: bool)
      requires 1 < level <= TOP_LEVEL && i < ENTRIES && entry.present && !entry.huge && entry.frame * PAGE_BYTES <= HIGH_ADDRESS
      requires Copyable(m0, CopyJob(src, dest, level, copying, user))
      requires CopiedUpTo(m0, M(), CopyJob(src, dest, level, copying, user), i)
      requires src < |tabs| && i < |tabs[src]| && tabs[src][i] == entry
      modifies this`tabs, alloc.man.words, alloc.man.counts
      ensures ok ==> CopiedUpTo(m0, M(), CopyJob(src, dest, level, copying, user), i + 1)
      ensures !ok ==> M().NoneFree()
      decreases level - 1, 2
    {
      ghost var m := M();
      ghost var job := CopyJob(src, dest, level, copying, user);
      CopyApart(m0, m, job, i);
      assert job.Source(m0).slots[i] == job.Source(m).slots[i] == SlotOf(tabs, entry, i, level, user);
      var newTable := AllocPage();
      if newTable.None? {
        return false;
      }
      var nt := newTable.value;
      StoreEntry(dest, i, CopiedTableEntry(entry, nt));
      ghost var m1 := M();
      SubReady(m0, m, m1, job, i, entry, nt);
      ok := RCopy(entry.frame, nt, level - 1, copying, if level == TOP_LEVEL then i < USER_HALF else user);
      if ok {
        StepSub(m0, m, m1, M(), job, i, entry, nt);
      }
    }

    /** The turn for a mapping: a user mapping is shared and, for a process copy, write-protected. */
    method CopyLeaf(src: nat, dest: nat, level: nat, copying: bool, user: bool, i: nat, entry: Entry, ghost m0: Mem)
      requires i < ENTRIES
      requires Copyable(m0, CopyJob(src, dest, level, copying, user))
      requires CopiedUpTo(m0, M(), CopyJob(src, dest, level, copying, user), i)
      requires ReadTree(m0.tabs, src, level, user).slots[i] == Leaf(entry, user)
      requires EntryAt(tabs, src, i) == entry
      modifies this`tabs, alloc.man.counts
      ensures CopiedUpTo(m0, M(), CopyJob(src, dest, level, copying, user), i + 1)
    {
      ghost var m := M();
      ghost var job := CopyJob(src, dest, level, copying, user);
      CopyApart(m0, m, job, i);
      var flags := entry;
      if user {
        SlotWithin(UserMaps, job.Source(m0), i, entry.frame);
        PageIncref(entry.frame);
        if copying {
          flags := flags.(writable := false);
          StoreEntry(src, i, flags);
        }
      }
      StoreEntry(dest, i, flags.(user := true));
      assert LeafEntries(m.tabs, tabs, job, i, entry);
      assert forall f: nat :: M().Free(f) == m.Free(f);
      StepLeaf(m0, m, M(), job, i, entry);
    }

    /** Gives back the tables and mappings below `table`; with `userOnly`, those of the lower half. */
    method RFree(table: nat, level: nat, userOnly: bool, user: bool)
      requires Freeable(M(), FreeJob(table, level, userOnly, user))
      modifies this`tabs, alloc.man.words, alloc.man.counts, alloc`warnings
      ensures Freed(old(M()), M(), FreeJob(table, level, userOnly, user))
      decreases level, 1
    {
      ghost var m0 := M();
      ghost var job := FreeJob(table, level, userOnly, user);
      FreeStart(m0, job);
      var limit := if level == TOP_LEVEL && userOnly then USER_HALF else ENTRIES;
      for i := 0 to limit
        invariant FreedUpTo(m0, M(), job, i)
      {
        FreeEntry(table, level, userOnly, user, i, m0);
      }
      if limit < ENTRIES {
        KeepRest(m0, M(), job);
      }
    }

    /** One turn of the loop of `r_free`. */
    method FreeEntry(table: nat, level: nat, userOnly: bool, user: bool, i: nat, ghost m0: Mem)
      requires i < ENTRIES
      requires Freeable(m0, FreeJob(table, level, userOnly, user))
      requires FreedUpTo(m0, M(), FreeJob(table, level, userOnly, user), i)
      modifies this`tabs, alloc.man.words, alloc.man.counts, alloc`warnings
      ensures FreedUpTo(m0, M(), FreeJob(table, level, userOnly, user), i + 1)
      decreases level, 0
    {
      ghost var m := M();
      ghost var job := FreeJob(table, level, userOnly, user);
      assert Count(TableFrames, job.Tree(m0), table) > 0;
      var entry := tabs[table][i];
      assert job.Tree(m0).slots[i] == job.Tree(m).slots[i] == SlotOf(tabs, entry, i, level, user);
      if !entry.present {
        KeepStep(m0, m, job, i);
        return;
      }
      if level == 1 || entry.huge {
        if !userOnly || user {
          FreeLeaf(table, level, userOnly, user, i, entry, m0);
        } else {
          KeepStep(m0, m, job, i);
        }
        return;
      }
      var targetIsUser := if level == TOP_LEVEL then i < USER_HALF else user;
      if !userOnly || targetIsUser {
        FreeTable(table, level, userOnly, user, i, entry, m0);
      } else {
        KeepStep(m0, m, job, i);
      }
    }

    /** The turn for a table: emptied by the recursive call, unhung and given back. */
    method FreeTable(table: nat, level: nat, userOnly: bool, user: bool, i: nat, entry: Entry, ghost m0: Mem)
      requires i < ENTRIES && level > 1 && entry.present && !entry.huge && (!userOnly || SubUser(level, i, user))
      requires Freeable(m0, FreeJob(table, level, userOnly, user))
      requires FreedUpTo(m0, M(), FreeJob(table, level, userOnly, user), i)
      requires ReadTree(m0.tabs, table, level, user).slots[i].Sub? && ReadTree(m0.tabs, table, level, user).slots[i].e == entry
      requires Goes(ReadTree(m0.tabs, table, level, user).slots[i], userOnly)
      modifies this`tabs, alloc.man.words, alloc.man.counts, alloc`warnings
      ensures FreedUpTo(m0, M(), FreeJob(table, level, userOnly, user), i + 1)
      decreases level - 1, 2
    {
      ghost var m := M();
      ghost var job := FreeJob(table, level, userOnly, user);
      assert Count(TableFrames, job.Tree(m0), table) > 0;
      InnerFreeable(m0, m, job, i, entry);
      RFree(entry.frame, level - 1, userOnly, SubUser(level, i, user));
      ghost var m1 := M();
      InnerEmptied(m0, m, m1, job, i, entry);
      StoreEntry(table, i, UNUSED);
      DeallocPage(entry.frame);
      TableStep(m0, m, m1, M(), job, i, entry);
    }

    /** The turn for a mapping: a user frame loses one reference and is freed with its last one. */
    method FreeLeaf(table: nat, level: nat, userOnly: bool, user: bool, i: nat, entry: Entry, ghost m0: Mem)
      requires i < ENTRIES && (!userOnly || user)
      requires Freeable(m0, FreeJob(table, level, userOnly, user))
      requires FreedUpTo(m0, M(), FreeJob(table, level, userOnly, user), i)
      requires ReadTree(m0.tabs, table, level, user).slots[i] == Leaf(entry, user)
      modifies this`tabs, alloc.man.words, alloc.man.counts, alloc`warnings
      ensures FreedUpTo(m0, M(), FreeJob(table, level, userOnly, user), i + 1)
    {
      ghost var m := M();
      ghost var job := FreeJob(table, level, userOnly, user);
      assert Count(TableFrames, job.Tree(m0), table) > 0;
      StoreEntry(table, i, UNUSED);
      if user {
        LeafHeld(m0, m, job, i, entry);
        ReleaseUserFrame(entry.frame);
      }
      LeafStep(m0, m, M(), job, i, entry);
    }

    /** One reference less; the frame is freed with its last reference. */
    method ReleaseUserFrame(frame: nat)
      requires M().Sized() && frame < |tabs| && M().Refs(frame) > 0 && !M().Free(frame)
      modifies alloc.man.words, alloc.man.counts, alloc`warnings
      ensures M().Sized() && M().SameShape(old(M())) && M() == old(M()).(free := M().free, refs := M().refs)
      ensures forall f: nat :: M().Refs(f) == if f == frame then old(M()).Refs(f) - 1 else old(M()).Refs(f)
      ensures forall f: nat :: M().Free(f) == (old(M()).Free(f) || (f == frame && M().Refs(f) == 0))
    {
      PageDecref(frame);
      ghost var m := M();
      assert forall f: nat :: m.Refs(f) == if f == frame then old(M()).Refs(f) - 1 else old(M()).Refs(f);
      assert forall f: nat :: m.Free(f) == old(M()).Free(f);
      var n := PageGetref(frame);
      if n == 0 {
        DeallocPage(frame);
        assert forall f: nat :: M().Refs(f) == m.Refs(f);
      }
    }

    /**
     The mapper's `map_to`: creates missing tables on the way down and opens the others to the
     user, then stores the mapping.  A page that is mapped, or lies in a large mapping, is refused.
    */
    method MapTo(table: nat, level: nat, ghost user: bool, path: Path, e: Entry) returns (r: MapOutcome)
      requires Mappable(M(), MapJob(table, level, user, path, e))
      modifies this`tabs, alloc.man.words
      ensures r == MapDone ==> Mapped(old(M()), M(), MapJob(table, level, user, path, e))
      ensures r == PageAlreadyMapped || r == ParentEntryHugePage ==> Opened(old(M()), M(), MapJob(table, level, user, path, e))
      ensures r == PageAlreadyMapped <==> Lookup(ReadTree(old(tabs), table, level, user), path).Some?
      ensures r == ParentEntryHugePage <==> Large(ReadTree(old(tabs), table, level, user), path)
      ensures r == OutOfFrames ==> M().NoneFree()
      decreases level
    {
      ghost var m0 := M();
      ghost var job := MapJob(table, level, user, path, e);
      var i := path[0];
      assert Count(TableFrames, job.Tree(m0), table) > 0;
      assert job.Tree(m0).slots[i] == SlotOf(tabs, EntryAt(tabs, table, i), i, level, user);
      if level == 1 {
        if tabs[table][i].present {
          WalkNothing(m0, job);
          return PageAlreadyMapped;
        }
        StoreEntry(table, i, e);
        MapHere(m0, M(), job);
        return MapDone;
      }
      var next := CreateNextTable(table, level, user, path, e);
      if next != MapDone {
        return next;
      }
      ghost var m1 := M();
      r := MapTo(tabs[table][i].frame, level - 1, SubUser(level, i, user), path[1..], e);
      if r == MapDone {
        MapAbove(m0, m1, M(), job);
      } else if r != OutOfFrames {
        RefusedAbove(m0, m1, M(), job);
      }
    }

    /** Maps a page and gives its frame one more reference. */
    method MapAndCount(root: nat, path: Path, e: Entry) returns (r: MapOutcome, ghost m': Mem)
      requires Mappable(M(), MapJob(root, TOP_LEVEL, false, path, e)) && e.frame < |tabs|
      modifies this`tabs, alloc.man.words, alloc.man.counts
      ensures r == MapDone ==> Mapped(old(M()), m', MapJob(root, TOP_LEVEL, false, path, e)) && e.frame < |m'.refs|
      ensures r == MapDone ==> M() == m'.(refs := m'.refs[e.frame := (m'.refs[e.frame] + 1) % COUNT_LIMIT]) && M().Sized()
      ensures r == PageAlreadyMapped || r == ParentEntryHugePage ==>
        Opened(old(M()), M(), MapJob(root, TOP_LEVEL, false, path, e))
      ensures r == PageAlreadyMapped <==> Lookup(ReadTree(old(tabs), root, TOP_LEVEL, false), path).Some?
      ensures r == ParentEntryHugePage <==> Large(ReadTree(old(tabs), root, TOP_LEVEL, false), path)
      ensures r == OutOfFrames ==> M().NoneFree()
    {
      r := MapTo(root, TOP_LEVEL, false, path, e);
      m' := M();
      if r == MapDone {
        PageIncref(e.frame);
      }
    }

    /** The mapper's `create_next_table`: an unused entry gets a new, empty table, another is opened. */
    method CreateNextTable(table: nat, level: nat, ghost user: bool, path: Path, ghost e: Entry) returns (r: MapOutcome)
      requires Mappable(M(), MapJob(table, level, user, path, e)) && level > 1
      modifies this`tabs, alloc.man.words
      ensures r != PageAlreadyMapped
      ensures r == MapDone ==> NextReady(old(M()), M(), MapJob(table, level, user, path, e))
      ensures r == ParentEntryHugePage ==> Opened(old(M()), M(), MapJob(table, level, user, path, e))
      ensures r == ParentEntryHugePage ==> Large(ReadTree(old(tabs), table, level, user), path)
      ensures r != MapDone ==> Lookup(ReadTree(old(tabs), table, level, user), path).None?
      ensures r == OutOfFrames ==> !Large(ReadTree(old(tabs), table, level, user), path) && M().NoneFree()
    {
      ghost var m0 := M();
      ghost var job := MapJob(table, level, user, path, e);
      var i := path[0];
      assert Count(TableFrames, job.Tree(m0), table) > 0;
      assert job.Tree(m0).slots[i] == SlotOf(tabs, EntryAt(tabs, table, i), i, level, user);
      assert SlotShape(job.Tree(m0).slots[i]);
      if !tabs[table][i].present {
        var ok := CreateTable(table, level, user, path, e);
        if !ok {
          return OutOfFrames;
        }
        CreatedTree(m0, M(), job, EntryAt(tabs, table, i).frame);
      } else {
        StoreEntry(table, i, tabs[table][i].(writable := true, user := true));
        OpenedIsOpened(m0, M(), job);
        if tabs[table][i].huge {
          return ParentEntryHugePage;
        }
      }
      InnerMappable(M(), job);
      return MapDone;
    }

    /** Hangs a new, empty table into the unused entry on the path; false without a free frame. */
    method CreateTable(table: nat, level: nat, ghost user: bool, path: Path, ghost e: Entry) returns (ok: bool)
      requires Mappable(M(), MapJob(table, level, user, path, e)) && level > 1
      requires !EntryAt(tabs, table, path[0]).present
      modifies this`tabs, alloc.man.words
      ensures ok ==> TableCreated(old(M()), M(), MapJob(table, level, user, path, e), EntryAt(tabs, table, path[0]).frame)
      ensures !ok ==> M() == old(M()) && M().NoneFree()
    {
      ghost var m0 := M();
      ghost var job := MapJob(table, level, user, path, e);
      assert Count(TableFrames, job.Tree(m0), table) > 0;
      var frame := AllocPage();
      if frame.None? {
        return false;
      }
      var nt := frame.value;
      StoreEntry(table, path[0], Entry(true, true, true, false, 0, nt));
      tabs := tabs[nt := ZERO_TABLE];
      SizedAfterStore(m0.(free := m0.free[nt := false]), tabs);
      return true;
    }
  }
}
