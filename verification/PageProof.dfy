/**
 What page faults, exec and exit do to the books.
*/
module PageProof {
  import opened Prelude
  import opened PageTree
  import opened PhysMems
  import opened TreeWalk
  import opened TableFree
  import opened FrameBooks

  /** Whether a top-level path lies in the user half. */
  predicate InHalf(path: Path) { path != [] && path[0] < USER_HALF }

  /**
   One last-level mapping of process `p` became `now`.  With `newFrame` its frame was free before;
   otherwise the mapping keeps its frame.  Other frames that stopped being free became tables.
  */
  ghost predicate Remapped(a: Os, b: Os, p: nat, path: Path, was: Option<Entry>, now: Entry, newFrame: bool) {
    && a.Live(p) && b.tasks == a.tasks && b.m.Sized() && b.m.SameShape(a.m)
    && UserEntry(now) && WalkPath(path, TOP_LEVEL)
    && MappingChanged(InHalf(path), a.TreeOf(p), b.TreeOf(p), path, was, Some(now))
    && (if newFrame then a.m.Free(now.frame) && !b.m.Free(now.frame) else was.Some? && was.value.frame == now.frame)
    && (forall f: nat :: b.m.Free(f) ==> a.m.Free(f))
    && (forall f: nat :: Count(TableFrames, b.TreeOf(p), f)
         == Count(TableFrames, a.TreeOf(p), f) + if a.m.Free(f) && !b.m.Free(f) && !(newFrame && f == now.frame) then 1 else 0)
    && (forall f: nat :: Count(TableFrames, b.TreeOf(p), f) == 0 ==> SameTable(a.m.tabs, b.m.tabs, f))
    && (forall f: nat :: b.m.Refs(f) + Holds(true, was, UserMaps, f) == a.m.Refs(f) + Holds(true, Some(now), UserMaps, f))
    && (InHalf(path) && now.writable && !newFrame ==> a.m.Refs(now.frame) == 1)
    && (newFrame && was.Some? ==> a.m.Refs(was.value.frame) > 1)
  }

  /** In the user half such a step keeps every frame accounted for. */
  lemma RemapKeepsBooks(a: Os, b: Os, held: Held, p: nat, path: Path, was: Option<Entry>, now: Entry, newFrame: bool)
    requires a.Inv(held) && Remapped(a, b, p, path, was, now, newFrame) && InHalf(path)
    ensures b.Inv(held)
    ensures forall q: nat :: a.Live(q) && q != p ==> b.Live(q) && b.TreeOf(q) == a.TreeOf(q)
  {
    TreeInv(a, held, p);
    OneTask(a, b, held, p);
    forall f: nat
      ensures b.FrameInv(f, held)
    {
      RemapFrame(a, b, held, p, path, was, now, newFrame, f);
    }
    forall q: nat | b.Live(q)
      ensures Shape(b.TreeOf(q), TOP_LEVEL)
    {
      assert Shape(a.TreeOf(q), TOP_LEVEL);
    }
  }

  lemma RemapFrame(a: Os, b: Os, held: Held, p: nat, path: Path, was: Option<Entry>, now: Entry, newFrame: bool, f: nat)
    requires a.Inv(held) && Remapped(a, b, p, path, was, now, newFrame) && InHalf(path)
    ensures b.FrameInv(f, held)
  {
    OneTask(a, b, held, p);
    TaskShare(a, p);
    assert a.FrameInv(f, held);
    var ta, tb := a.TreeOf(p), b.TreeOf(p);
    assert b.Total(UserMaps, f) + Holds(true, was, UserMaps, f) == a.Total(UserMaps, f) + Holds(true, Some(now), UserMaps, f);
    assert b.Total(WritableMaps, f) + Holds(true, was, WritableMaps, f) == a.Total(WritableMaps, f) + Holds(true, Some(now), WritableMaps, f);
    WritableTotal(b, f);
    assert b.m.Refs(f) == b.Total(UserMaps, f) + Carried(held, f);
    if newFrame && was.Some? {
      assert Count(UserMaps, tb, was.value.frame) + 1 == Count(UserMaps, ta, was.value.frame) + Holds(true, Some(now), UserMaps, was.value.frame);
      assert a.FrameInv(was.value.frame, held);
    }
  }

  // ---- pages above the user half ----

  /**
   A page of the upper half got a new frame.  That frame has left the books: it is not free, no
   table, and its count belongs to no user mapping.  All other frames stay accounted for.
  */
  lemma UpperRemapLoses(a: Os, b: Os, held: Held, p: nat, path: Path, was: Option<Entry>, now: Entry)
    requires a.Inv(held) && Remapped(a, b, p, path, was, now, true) && !InHalf(path)
    ensures now.frame < |b.m.tabs| && now.frame !in held && !b.Inv(held)
    ensures b.Inv(held[now.frame := 1]) <==> was.None?
    ensures forall q: nat :: a.Live(q) && q != p ==> b.Live(q) && b.TreeOf(q) == a.TreeOf(q)
  {
    OneTask(a, b, held, p);
    TaskShare(a, p);
    UpperShapes(a, b, held, p);
    var more := held[now.frame := 1];
    forall f: nat
      ensures b.FrameInv(f, more) <==> was.None? || was.value.frame != f
    {
      UpperFrame(a, b, held, p, path, was, now, f);
    }
    if was.Some? {
      assert !b.FrameInv(was.value.frame, more);
    } else {
      assert b.Inv(more);
    }
    assert a.FrameInv(now.frame, held);
    UpperFrame(a, b, held, p, path, was, now, now.frame);
    assert !b.FrameInv(now.frame, held);
  }

  lemma UpperShapes(a: Os, b: Os, held: Held, p: nat)
    requires a.Inv(held) && a.Live(p) && b.tasks == a.tasks && Shape(b.TreeOf(p), TOP_LEVEL)
    requires forall q: nat :: a.Live(q) && q != p ==> b.Live(q) && b.TreeOf(q) == a.TreeOf(q)
    ensures forall q: nat :: b.Live(q) ==> Shape(b.TreeOf(q), TOP_LEVEL)
  {
    forall q: nat | b.Live(q)
      ensures Shape(b.TreeOf(q), TOP_LEVEL)
    {
      assert Shape(a.TreeOf(q), TOP_LEVEL);
    }
  }

  lemma UpperFrame(a: Os, b: Os, held: Held, p: nat, path: Path, was: Option<Entry>, now: Entry, f: nat)
    requires a.Inv(held) && Remapped(a, b, p, path, was, now, true) && !InHalf(path)
    ensures b.FrameInv(f, held[now.frame := 1]) <==> was.None? || was.value.frame != f
    ensures f == now.frame ==> b.Roles(f, held) == 0 && f !in held && f < |b.m.tabs|
  {
    UpperTotals(a, b, held, p, path, was, now, f);
    assert a.FrameInv(f, held) && a.FrameInv(now.frame, held);
    assert b.m.Refs(f) + Holds(true, was, UserMaps, f) == a.m.Refs(f) + Holds(true, Some(now), UserMaps, f);
    if was.Some? {
      assert a.FrameInv(was.value.frame, held);
      assert a.m.Refs(was.value.frame) > 1;
    }
  }

  lemma UpperTotals(a: Os, b: Os, held: Held, p: nat, path: Path, was: Option<Entry>, now: Entry, f: nat)
    requires a.Inv(held) && Remapped(a, b, p, path, was, now, true) && !InHalf(path)
    ensures b.Total(UserMaps, f) == a.Total(UserMaps, f) && b.Total(WritableMaps, f) == a.Total(WritableMaps, f)
    ensures b.Total(TableFrames, f) == a.Total(TableFrames, f) + if a.m.Free(f) && !b.m.Free(f) && f != now.frame then 1 else 0
  {
    OneTask(a, b, held, p);
    var ta, tb := a.TreeOf(p), b.TreeOf(p);
    assert Count(UserMaps, tb, f) == Count(UserMaps, ta, f) && Count(WritableMaps, tb, f) == Count(WritableMaps, ta, f);
  }

  /** A page of the upper half that keeps its frame: nothing counted changed. */
  lemma UpperFlagsKeepBooks(a: Os, b: Os, held: Held, p: nat, path: Path, was: Option<Entry>, now: Entry)
    requires a.Inv(held) && Remapped(a, b, p, path, was, now, false) && !InHalf(path)
    ensures b.Inv(held)
    ensures forall q: nat :: a.Live(q) && q != p ==> b.Live(q) && b.TreeOf(q) == a.TreeOf(q)
  {
    OneTask(a, b, held, p);
    TaskShare(a, p);
    UpperShapes(a, b, held, p);
    forall f: nat
      ensures b.FrameInv(f, held)
    {
      assert a.FrameInv(f, held);
      var ta, tb := a.TreeOf(p), b.TreeOf(p);
      assert Count(UserMaps, tb, f) == Count(UserMaps, ta, f) && Count(WritableMaps, tb, f) == Count(WritableMaps, ta, f);
    }
  }

  /** A refused mapping: at most flags of tables above the page changed. */
  ghost predicate FlagsOpened(a: Os, b: Os, p: nat, path: Path) {
    && a.Live(p) && b.tasks == a.tasks && b.m == a.m.(tabs := b.m.tabs) && b.m.Sized() && WalkPath(path, TOP_LEVEL)
    && MappingChanged(InHalf(path), a.TreeOf(p), b.TreeOf(p), path, Lookup(a.TreeOf(p), path), Lookup(a.TreeOf(p), path))
    && (forall f: nat :: Count(TableFrames, b.TreeOf(p), f) == Count(TableFrames, a.TreeOf(p), f))
    && (forall f: nat :: Count(TableFrames, b.TreeOf(p), f) == 0 ==> SameTable(a.m.tabs, b.m.tabs, f))
    && (InHalf(path) ==> b == a)
  }

  lemma OpeningKeepsBooks(a: Os, b: Os, held: Held, p: nat, path: Path)
    requires a.Inv(held) && FlagsOpened(a, b, p, path)
    ensures b.Inv(held)
    ensures forall q: nat :: a.Live(q) && q != p ==> b.Live(q) && b.TreeOf(q) == a.TreeOf(q)
  {
    OneTask(a, b, held, p);
    TaskShare(a, p);
    if !InHalf(path) {
      UpperShapes(a, b, held, p) by {
        assert Shape(a.TreeOf(p), TOP_LEVEL);
      }
    }
    forall f: nat
      ensures b.FrameInv(f, held)
    {
      assert a.FrameInv(f, held);
      assert b.m.Free(f) == a.m.Free(f) && b.m.Refs(f) == a.m.Refs(f);
      var ta, tb := a.TreeOf(p), b.TreeOf(p);
      assert Count(UserMaps, tb, f) == Count(UserMaps, ta, f) && Count(WritableMaps, tb, f) == Count(WritableMaps, ta, f);
    }
  }

  /** The address space of `p` was given back as far as `rest` says; `root` tells whether the root went too. */
  ghost predicate Released(a: Os, m1: Mem, b: Os, p: nat, root: bool) {
    && a.Live(p)
    && Freed(a.m, m1, FreeJob(a.tasks[p].value.root, TOP_LEVEL, !root, false))
    && |b.tasks| == |a.tasks| && (forall q: nat :: q < |a.tasks| && q != p ==> b.tasks[q] == a.tasks[q])
    && (if root then
          b.tasks[p].None?
          && b.m == m1.(free := b.m.free) && b.m.Sized() && |b.m.free| == |m1.free|
          && (forall f: nat :: b.m.Free(f) == (m1.Free(f) || f == a.tasks[p].value.root))
        else
          b.tasks[p].Some? && b.tasks[p].value.root == a.tasks[p].value.root && b.m == m1)
  }

  lemma ReleaseReady(a: Os, held: Held, p: nat, userOnly: bool)
    requires a.Inv(held) && a.Live(p)
    ensures Freeable(a.m, FreeJob(a.tasks[p].value.root, TOP_LEVEL, userOnly, false))
  {
    TreeInv(a, held, p);
  }

  /** What remains of a released tree: no mapping of the user half; without the root, nothing. */
  lemma WhatRemains(m0: Mem, m1: Mem, table: nat, userOnly: bool)
    requires Freed(m0, m1, FreeJob(table, TOP_LEVEL, userOnly, false))
    ensures forall i :: 0 <= i < USER_HALF ==>
      var s := ReadTree(m1.tabs, table, TOP_LEVEL, false).slots[i]; s == Absent || s.Leaf?
    ensures !userOnly ==> forall f: nat ::
      Count(TableFrames, ReadTree(m1.tabs, table, TOP_LEVEL, false), f) == if f == table then 1 else 0
    ensures !userOnly ==> forall f: nat :: Count(UserMaps, ReadTree(m1.tabs, table, TOP_LEVEL, false), f) == 0
  {
    var job := FreeJob(table, TOP_LEVEL, userOnly, false);
    var t0, t := job.Tree(m0), job.Tree(m1);
    forall i | 0 <= i < USER_HALF
      ensures t.slots[i] == Absent || t.slots[i].Leaf?
    {
      assert t0.slots[i] == SlotOf(m0.tabs, EntryAt(m0.tabs, table, i), i, TOP_LEVEL, false);
    }
    if !userOnly {
      forall k: Kind, f: nat
        ensures SlotsCount(k, t.slots, f) == 0
      {
        SlotsAllZero(k, t.slots, f);
      }
    }
  }

  lemma ReleaseKeepsBooks(a: Os, m1: Mem, b: Os, held: Held, p: nat, root: bool)
    requires a.Inv(held) && Released(a, m1, b, p, root)
    ensures b.Inv(held)
    ensures forall q: nat :: a.Live(q) && q != p ==> b.Live(q) && b.TreeOf(q) == a.TreeOf(q)
  {
    var job := FreeJob(a.tasks[p].value.root, TOP_LEVEL, !root, false);
    OneTask(a, b, held, p);
    WhatRemains(a.m, m1, a.tasks[p].value.root, !root);
    forall f: nat
      ensures b.FrameInv(f, held)
    {
      ReleaseFrame(a, m1, b, held, p, root, f);
    }
    forall q: nat | b.Live(q)
      ensures Shape(b.TreeOf(q), TOP_LEVEL)
    {
      assert Shape(a.TreeOf(q), TOP_LEVEL);
      if q == p {
        assert b.TreeOf(p) == job.Tree(m1);
        forall i | 0 <= i < ENTRIES
          ensures SlotShape(b.TreeOf(q).slots[i])
        {
          assert SlotShape(a.TreeOf(q).slots[i]);
        }
      }
    }
  }

  lemma ReleaseFrame(a: Os, m1: Mem, b: Os, held: Held, p: nat, root: bool, f: nat)
    requires a.Inv(held) && Released(a, m1, b, p, root)
    ensures b.FrameInv(f, held)
  {
    var job := FreeJob(a.tasks[p].value.root, TOP_LEVEL, !root, false);
    OneTask(a, b, held, p);
    WhatRemains(a.m, m1, a.tasks[p].value.root, !root);
    TaskShare(a, p);
    WritableTotal(b, f);
    var t, s := a.TreeOf(p), job.Tree(m1);
    assert t == job.Tree(a.m);
    ReleaseWritable(a.m, m1, job, f);
    assert a.FrameInv(f, held);
    assert b.m.Refs(f) == m1.Refs(f);
    assert Count(UserMaps, s, f) <= Count(UserMaps, t, f);
    assert s == ReadTree(m1.tabs, a.tasks[p].value.root, TOP_LEVEL, false);
    if root {
      assert !b.Live(p);
      assert Count(UserMaps, s, f) == 0;
      assert Count(TableFrames, s, f) == if f == job.table then 1 else 0;
    } else {
      assert b.Live(p) && b.TreeOf(p) == s;
    }
    assert b.Total(UserMaps, f) == a.Total(UserMaps, f) - Count(UserMaps, t, f) + Count(UserMaps, s, f);
    assert b.Total(TableFrames, f) == a.Total(TableFrames, f) - Count(TableFrames, t, f) + if root then 0 else Count(TableFrames, s, f);
    assert m1.Refs(f) + Count(UserMaps, t, f) == a.m.Refs(f) + Count(UserMaps, s, f);
    assert Count(TableFrames, t, job.table) > 0;
  }

  /** Removing slots removes writable mappings at most. */
  lemma ReleaseWritable(m0: Mem, m1: Mem, job: FreeJob, f: nat)
    requires Freed(m0, m1, job)
    ensures Count(WritableMaps, job.Tree(m1), f) <= Count(WritableMaps, job.Tree(m0), f)
  {
    var t, s := job.Tree(m0), job.Tree(m1);
    SumsBelow(WritableMaps, s.slots, WritableMaps, [], WritableMaps, t.slots, f);
  }
}
