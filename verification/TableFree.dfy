/**
 What `r_free` does to memory (kernel/src/task/process.rs): the removed subtrees give their
 tables back, every removed user mapping gives one reference back, and a frame whose last
 reference went is freed.
*/
module TableFree {
  import opened PageTree
  import opened PhysMems

  /** The arguments of one `r_free` call. */
  datatype FreeJob = FreeJob(table: nat, level: nat, userOnly: bool, user: bool) {

    ghost function Tree(m: Mem): Tree { ReadTree(m.tabs, table, level, user) }

    function Inner(e: Entry, i: nat): FreeJob
      requires level > 0
    {
      FreeJob(e.frame, level - 1, userOnly, SubUser(level, i, user))
    }
  }

  /** Whether `r_free` removes this slot. */
  predicate Goes(s: Slot, userOnly: bool) { s.Absent? || !userOnly || s.user }

  ghost predicate Freeable(m: Mem, job: FreeJob) {
    var t := job.Tree(m);
    && m.Sized() && 1 <= job.level <= TOP_LEVEL && (job.level == TOP_LEVEL ==> !job.user)
    && OwnsTables(m, t)
    && forall f: nat :: Count(UserMaps, t, f) > 0 ==>
         Count(UserMaps, t, f) <= m.Refs(f) && !m.Free(f) && Count(TableFrames, t, f) == 0
  }

  /** The state of the loop when entries below `i` are done. */
  ghost predicate FreedUpTo(m0: Mem, m: Mem, job: FreeJob, i: nat) {
    && m.Sized() && m.SameShape(m0) && m.data == m0.data && m.warnings == m0.warnings
    && RemovedUpTo(job.Tree(m0), job.Tree(m), job.userOnly, i)
    && Returned(m0, m, job.Tree(m0), job.Tree(m))
    && forall f: nat :: Count(TableFrames, job.Tree(m0), f) == 0 ==> SameTable(m0.tabs, m.tabs, f)
  }

  ghost predicate RemovedUpTo(t: Tree, s: Tree, userOnly: bool, i: nat) {
    |s.slots| == |t.slots| && s.frame == t.frame
    && forall j :: 0 <= j < |t.slots| ==>
      s.slots[j] == if j < i && Goes(t.slots[j], userOnly) then Absent else t.slots[j]
  }

  /** The books after the part of `t` that `s` lacks was given back. */
  ghost predicate Returned(m0: Mem, m: Mem, t: Tree, s: Tree) {
    && (forall f: nat :: Count(TableFrames, s, f) <= Count(TableFrames, t, f))
    && (forall f: nat :: Count(UserMaps, s, f) <= Count(UserMaps, t, f))
    && (forall f: nat :: m.Refs(f) + Count(UserMaps, t, f) == m0.Refs(f) + Count(UserMaps, s, f))
    && (forall f: nat :: m.Free(f) ==
         (m0.Free(f) || Count(TableFrames, s, f) < Count(TableFrames, t, f)
          || (Count(UserMaps, s, f) < Count(UserMaps, t, f) && m.Refs(f) == 0)))
  }

  ghost predicate Freed(m0: Mem, m: Mem, job: FreeJob) {
    FreedUpTo(m0, m, job, ENTRIES)
  }

  lemma FreeStart(m: Mem, job: FreeJob)
    requires Freeable(m, job)
    ensures FreedUpTo(m, m, job, 0)
  {
  }

  lemma KeepStep(m0: Mem, m: Mem, job: FreeJob, i: nat)
    requires FreedUpTo(m0, m, job, i) && i < ENTRIES
    requires var s := job.Tree(m0).slots[i]; s.Absent? || !Goes(s, job.userOnly)
    ensures FreedUpTo(m0, m, job, i + 1)
  {
  }

  /** With `userOnly` the upper half of the top table is not visited, and nothing there goes. */
  lemma KeepRest(m0: Mem, m: Mem, job: FreeJob)
    requires FreedUpTo(m0, m, job, USER_HALF) && job.level == TOP_LEVEL && job.userOnly && !job.user
    ensures Freed(m0, m, job)
  {
    var t, s := job.Tree(m0), job.Tree(m);
    forall j | USER_HALF <= j < ENTRIES
      ensures t.slots[j].Absent? || !Goes(t.slots[j], true)
    {
      assert t.slots[j] == SlotOf(m0.tabs, EntryAt(m0.tabs, job.table, j), j, job.level, job.user);
    }
  }

  /** Taking slot `i` out of a tree lowers the counts by that slot's counts. */
  lemma CountsShrink(s: Tree, s': Tree, i: nat)
    requires i < |s.slots| && s' == Tree(s.frame, s.slots[i := Absent])
    ensures forall k: Kind, f: nat :: Count(k, s, f) == Count(k, s', f) + SlotCount(k, s.slots[i], f)
  {
    forall k: Kind, f: nat
      ensures Count(k, s, f) == Count(k, s', f) + SlotCount(k, s.slots[i], f)
    {
      CountReplace(k, s, s', i, f);
    }
  }

  /** Clearing entry `i`, with changes only below it, removes slot `i`. */
  lemma ClearEntry(m0: Mem, m: Mem, m': Mem, job: FreeJob, i: nat)
    requires Freeable(m0, job) && FreedUpTo(m0, m, job, i) && i < ENTRIES
    requires forall f: nat :: f != job.table && SlotCount(TableFrames, job.Tree(m).slots[i], f) == 0 ==> SameTable(m.tabs, m'.tabs, f)
    requires forall j: nat :: j < ENTRIES && j != i ==> EntryAt(m'.tabs, job.table, j) == EntryAt(m.tabs, job.table, j)
    requires EntryAt(m'.tabs, job.table, i) == UNUSED
    ensures job.Tree(m') == Tree(job.table, job.Tree(m).slots[i := Absent])
  {
    OneSlotChanges(m.tabs, m'.tabs, job.table, i, job.level, job.user);
    assert SlotAt(m'.tabs, job.table, i, job.level, job.user) == SlotOf(m'.tabs, UNUSED, i, job.level, job.user) == Absent;
  }

  /** The memory after the mapping `e` in entry `i` was removed and, for a user page, released. */
  ghost predicate LeafReleased(m: Mem, m': Mem, job: FreeJob, i: nat, e: Entry) {
    && m'.Sized() && m'.SameShape(m) && m'.data == m.data
    && (forall f: nat :: f != job.table ==> SameTable(m.tabs, m'.tabs, f))
    && (forall j: nat :: j < ENTRIES && j != i ==> EntryAt(m'.tabs, job.table, j) == EntryAt(m.tabs, job.table, j))
    && EntryAt(m'.tabs, job.table, i) == UNUSED
    && (forall f: nat :: m'.Refs(f) == if job.user && f == e.frame then m.Refs(f) - 1 else m.Refs(f))
    && (forall f: nat :: m'.Free(f) == (m.Free(f) || (job.user && f == e.frame && m'.Refs(f) == 0)))
    && m'.warnings == m.warnings
  }

  /** A user frame that is still mapped has references left and is not free. */
  lemma LeafHeld(m0: Mem, m: Mem, job: FreeJob, i: nat, e: Entry)
    requires Freeable(m0, job) && FreedUpTo(m0, m, job, i) && i < ENTRIES
    requires job.Tree(m0).slots[i] == Leaf(e, job.user) && job.user
    ensures e.frame < |m.refs| && 0 < m.Refs(e.frame) && !m.Free(e.frame)
  {
    SlotWithin(UserMaps, job.Tree(m0), i, e.frame);
    SlotWithin(UserMaps, job.Tree(m), i, e.frame);
  }

  lemma LeafStep(m0: Mem, m: Mem, m': Mem, job: FreeJob, i: nat, e: Entry)
    requires Freeable(m0, job) && FreedUpTo(m0, m, job, i) && i < ENTRIES
    requires job.Tree(m0).slots[i] == Leaf(e, job.user) && Goes(job.Tree(m0).slots[i], job.userOnly)
    requires LeafReleased(m, m', job, i, e)
    ensures FreedUpTo(m0, m', job, i + 1)
  {
    var t, s, s' := job.Tree(m0), job.Tree(m), job.Tree(m');
    ClearEntry(m0, m, m', job, i);
    CountsShrink(s, s', i);
    assert forall f: nat :: Count(TableFrames, s', f) == Count(TableFrames, s, f);
    assert forall f: nat :: Count(UserMaps, s, f) == Count(UserMaps, s', f) + if job.user && e.frame == f then 1 else 0;
    assert Count(TableFrames, t, job.table) > 0;
    forall f: nat
      ensures m'.Refs(f) + Count(UserMaps, t, f) == m0.Refs(f) + Count(UserMaps, s', f)
    {
      if job.user && f == e.frame {
        LeafHeld(m0, m, job, i, e);
      }
    }
    forall f: nat
      ensures m'.Free(f) ==
         (m0.Free(f) || Count(TableFrames, s', f) < Count(TableFrames, t, f)
          || (Count(UserMaps, s', f) < Count(UserMaps, t, f) && m'.Refs(f) == 0))
    {
      if job.user && f == e.frame {
        LeafHeld(m0, m, job, i, e);
      }
    }
    forall f: nat | Count(TableFrames, t, f) == 0
      ensures SameTable(m0.tabs, m'.tabs, f)
    {
      assert SameTable(m0.tabs, m.tabs, f) && SameTable(m.tabs, m'.tabs, f);
    }
  }

  /** The table behind entry `i` can be freed in the current state. */
  lemma InnerFreeable(m0: Mem, m: Mem, job: FreeJob, i: nat, e: Entry)
    requires Freeable(m0, job) && FreedUpTo(m0, m, job, i) && i < ENTRIES && job.level > 1
    requires job.Tree(m0).slots[i].Sub? && job.Tree(m0).slots[i].e == e
    ensures Freeable(m, job.Inner(e, i))
    ensures job.Inner(e, i).Tree(m) == job.Tree(m0).slots[i].tree
  {
    var t, s := job.Tree(m0), job.Tree(m);
    var sub := t.slots[i].tree;
    assert t.slots[i] == SlotOf(m0.tabs, EntryAt(m0.tabs, job.table, i), i, job.level, job.user);
    assert s.slots[i] == SlotOf(m.tabs, EntryAt(m.tabs, job.table, i), i, job.level, job.user);
    assert job.Inner(e, i).Tree(m) == sub;
    forall f: nat
      ensures Count(TableFrames, sub, f) <= Count(TableFrames, s, f) <= Count(TableFrames, t, f)
      ensures Count(UserMaps, sub, f) <= Count(UserMaps, s, f) <= Count(UserMaps, t, f)
    {
      SlotWithin(TableFrames, s, i, f);
      SlotWithin(UserMaps, s, i, f);
    }
  }

  /** The memory after the emptied table of entry `i` was unhung and given back. */
  ghost predicate TableReleased(m1: Mem, m2: Mem, job: FreeJob, i: nat, e: Entry) {
    && m2.Sized() && m2.SameShape(m1) && m2.data == m1.data && m2.refs == m1.refs
    && (forall f: nat :: f != job.table ==> SameTable(m1.tabs, m2.tabs, f))
    && (forall j: nat :: j < ENTRIES && j != i ==> EntryAt(m2.tabs, job.table, j) == EntryAt(m1.tabs, job.table, j))
    && EntryAt(m2.tabs, job.table, i) == UNUSED
    && (forall f: nat :: m2.Free(f) == (m1.Free(f) || f == e.frame))
    && m2.warnings == m1.warnings
  }

  /** After the inner call nothing but the root is left of the subtree, and the root is not free. */
  lemma InnerEmptied(m0: Mem, m: Mem, m1: Mem, job: FreeJob, i: nat, e: Entry)
    requires Freeable(m0, job) && FreedUpTo(m0, m, job, i) && i < ENTRIES && job.level > 1
    requires job.Tree(m0).slots[i].Sub? && job.Tree(m0).slots[i].e == e && Goes(job.Tree(m0).slots[i], job.userOnly)
    requires Freed(m, m1, job.Inner(e, i))
    ensures forall f: nat :: Count(TableFrames, job.Inner(e, i).Tree(m1), f) == if f == e.frame then 1 else 0
    ensures forall f: nat :: Count(UserMaps, job.Inner(e, i).Tree(m1), f) == 0
    ensures e.frame < |m1.tabs| && !m1.Free(e.frame) && e.frame != job.table
  {
    var inner := job.Inner(e, i);
    var sub, rest := inner.Tree(m), inner.Tree(m1);
    InnerFreeable(m0, m, job, i, e);
    assert job.Tree(m0).slots[i] == SlotOf(m0.tabs, EntryAt(m0.tabs, job.table, i), i, job.level, job.user);
    forall j | 0 <= j < ENTRIES
      ensures rest.slots[j] == Absent
    {
      assert sub.slots[j] == SlotOf(m.tabs, EntryAt(m.tabs, inner.table, j), j, inner.level, inner.user);
    }
    forall k: Kind, f: nat
      ensures SlotsCount(k, rest.slots, f) == 0
    {
      SlotsAllZero(k, rest.slots, f);
    }
    assert Count(TableFrames, sub, e.frame) > 0;
    SlotWithin(TableFrames, job.Tree(m0), i, e.frame);
    assert Count(UserMaps, sub, e.frame) == 0;
    SlotsUpdate(TableFrames, job.Tree(m0).slots, i, Absent, e.frame);
  }

  lemma TableStep(m0: Mem, m: Mem, m1: Mem, m2: Mem, job: FreeJob, i: nat, e: Entry)
    requires Freeable(m0, job) && FreedUpTo(m0, m, job, i) && i < ENTRIES && job.level > 1
    requires job.Tree(m0).slots[i].Sub? && job.Tree(m0).slots[i].e == e && Goes(job.Tree(m0).slots[i], job.userOnly)
    requires Freed(m, m1, job.Inner(e, i))
    requires TableReleased(m1, m2, job, i, e)
    ensures FreedUpTo(m0, m2, job, i + 1)
  {
    var t, s, s' := job.Tree(m0), job.Tree(m), job.Tree(m2);
    var inner := job.Inner(e, i);
    var sub, rest := inner.Tree(m), inner.Tree(m1);
    InnerFreeable(m0, m, job, i, e);
    InnerEmptied(m0, m, m1, job, i, e);
    assert Count(TableFrames, sub, job.table) == 0 by {
      SlotsUpdate(TableFrames, t.slots, i, Absent, job.table);
    }
    assert s.slots[i].tree == sub;
    forall f: nat | f != job.table && SlotCount(TableFrames, s.slots[i], f) == 0
      ensures SameTable(m.tabs, m2.tabs, f)
    {
      assert SameTable(m.tabs, m1.tabs, f) && SameTable(m1.tabs, m2.tabs, f);
    }
    assert SameTable(m.tabs, m1.tabs, job.table);
    ClearEntry(m0, m, m2, job, i);
    CountsShrink(s, s', i);
    assert Count(TableFrames, t, job.table) > 0;
    TableReturned(m0, m, m1, m2, t, s, s', sub, rest, e.frame);
    forall f: nat | Count(TableFrames, t, f) == 0
      ensures SameTable(m0.tabs, m2.tabs, f)
    {
      assert SameTable(m0.tabs, m.tabs, f);
      assert SlotCount(TableFrames, s.slots[i], f) == 0 by { SlotWithin(TableFrames, t, i, f); }
      assert SameTable(m.tabs, m2.tabs, f);
    }
  }

  lemma TableReturned(m0: Mem, m: Mem, m1: Mem, m2: Mem, t: Tree, s: Tree, s': Tree, sub: Tree, rest: Tree, root: nat)
    requires Returned(m0, m, t, s) && Returned(m, m1, sub, rest) && OwnsTables(m0, t)
    requires forall f: nat :: Count(UserMaps, t, f) > 0 ==> !m0.Free(f) && Count(TableFrames, t, f) == 0
    requires forall f: nat :: Count(TableFrames, rest, f) == if f == root then 1 else 0
    requires forall f: nat :: Count(UserMaps, rest, f) == 0
    requires forall f: nat :: Count(TableFrames, s, f) == Count(TableFrames, s', f) + Count(TableFrames, sub, f)
    requires forall f: nat :: Count(UserMaps, s, f) == Count(UserMaps, s', f) + Count(UserMaps, sub, f)
    requires m2.refs == m1.refs
    requires forall f: nat :: m2.Free(f) == (m1.Free(f) || f == root)
    ensures Returned(m0, m2, t, s')
  {
    forall f: nat
      ensures m2.Refs(f) + Count(UserMaps, t, f) == m0.Refs(f) + Count(UserMaps, s', f)
    {
      assert m2.Refs(f) == m1.Refs(f);
      assert m1.Refs(f) + Count(UserMaps, sub, f) == m.Refs(f);
    }
    forall f: nat
      ensures m2.Free(f) ==
         (m0.Free(f) || Count(TableFrames, s', f) < Count(TableFrames, t, f)
          || (Count(UserMaps, s', f) < Count(UserMaps, t, f) && m2.Refs(f) == 0))
    {
      assert m2.Refs(f) == m1.Refs(f);
      assert Count(TableFrames, rest, f) <= Count(TableFrames, sub, f);
      assert Count(TableFrames, t, f) <= 1;
      if Count(UserMaps, sub, f) == 0 {
        assert m1.Refs(f) == m.Refs(f);
      }
    }
  }
}
