/**
 What mapping one page does to memory: missing tables on the way are created from free frames,
 tables that exist are opened to the user, and the one mapping appears.
*/
module TableMap {
  import opened Prelude
  import opened PageTree
  import opened PhysMems
  import opened TreeWalk

  /** The arguments of one step of the mapping walk. */
  datatype MapJob = MapJob(table: nat, level: nat, user: bool, path: Path, e: Entry) {

    ghost function Tree(m: Mem): Tree { ReadTree(m.tabs, table, level, user) }

    predicate Lower()
      requires path != []
    {
      SubUser(level, path[0], user)
    }

    function Inner(next: nat): MapJob
      requires level > 1 && path != []
    {
      MapJob(next, level - 1, SubUser(level, path[0], user), path[1..], e)
    }
  }

  ghost predicate Mappable(m: Mem, job: MapJob) {
    && m.Sized() && OwnsTables(m, job.Tree(m)) && Shape(job.Tree(m), job.level)
    && WalkPath(job.path, job.level) && UserEntry(job.e)
  }

  /** The walk of `job` left `now` at the end of its path, and changed nothing else that is mapped or counted. */
  ghost predicate Walked(m0: Mem, m: Mem, job: MapJob, now: Option<Entry>) {
    && WalkPath(job.path, job.level)
    && m.Sized() && m.SameShape(m0) && m.refs == m0.refs && m.data == m0.data && m.warnings == m0.warnings
    && MappingChanged(job.Lower(), job.Tree(m0), job.Tree(m), job.path, Lookup(job.Tree(m0), job.path), now)
    && TablesAdded(m0, m, job.Tree(m0), job.Tree(m))
  }

  /** The page was unmapped and is mapped now. */
  ghost predicate Mapped(m0: Mem, m: Mem, job: MapJob) {
    Walked(m0, m, job, Some(job.e)) && Lookup(job.Tree(m0), job.path).None?
  }

  /**
   The walk was refused.  Tables on the way may be open to the user now; in the user half they
   are so anyway, and nothing changed.
  */
  ghost predicate Opened(m0: Mem, m: Mem, job: MapJob) {
    && Walked(m0, m, job, Lookup(job.Tree(m0), job.path)) && m == m0.(tabs := m.tabs)
    && (job.Lower() ==> m == m0)
  }

  /** The frames that stopped being free are exactly the tables that `t` has over `s`. */
  ghost predicate TablesAdded(m0: Mem, m: Mem, s: Tree, t: Tree) {
    && (forall f: nat :: m.Free(f) ==> m0.Free(f))
    && (forall f: nat :: Count(TableFrames, t, f) == Count(TableFrames, s, f) + if m0.Free(f) && !m.Free(f) then 1 else 0)
    && (forall f: nat :: Count(TableFrames, t, f) == 0 ==> SameTable(m0.tabs, m.tabs, f))
  }

  /** A walk that changed no memory. */
  lemma WalkNothing(m: Mem, job: MapJob)
    requires Mappable(m, job)
    ensures Opened(m, m, job)
  {
  }

  lemma MapHere(m0: Mem, m: Mem, job: MapJob)
    requires Mappable(m0, job) && job.level == 1
    requires !EntryAt(m0.tabs, job.table, job.path[0]).present
    requires m == m0.(tabs := m.tabs) && m.Sized() && |m.tabs| == |m0.tabs|
    requires StoredAt(m0.tabs, m.tabs, job.table, job.path[0], job.e)
    ensures Mapped(m0, m, job)
  {
    var i := job.path[0];
    assert job.path == [i];
    assert job.Tree(m0).slots[i] == SlotOf(m0.tabs, EntryAt(m0.tabs, job.table, i), i, 1, job.user);
    OneSlotChanges(m0.tabs, m.tabs, job.table, i, 1, job.user);
    MappingChangedHere(job.user, job.Tree(m0), job.Tree(m), i, None, Some(job.e));
    assert Count(TableFrames, job.Tree(m), job.table) > 0;
  }

  /** The table behind the entry on the path can be mapped into. */
  lemma InnerMappable(m: Mem, job: MapJob)
    requires Mappable(m, job) && job.level > 1
    requires job.Tree(m).slots[job.path[0]].Sub?
    ensures Mappable(m, job.Inner(EntryAt(m.tabs, job.table, job.path[0]).frame))
    ensures job.Inner(EntryAt(m.tabs, job.table, job.path[0]).frame).Tree(m) == job.Tree(m).slots[job.path[0]].tree
    ensures job.Inner(EntryAt(m.tabs, job.table, job.path[0]).frame).Lower() == job.Lower()
    ensures var x := EntryAt(m.tabs, job.table, job.path[0]); x.present && !x.huge && (job.Lower() ==> x.writable && x.user)
  {
    var i := job.path[0];
    var s := job.Tree(m);
    assert s.slots[i] == SlotOf(m.tabs, EntryAt(m.tabs, job.table, i), i, job.level, job.user);
    assert SlotShape(s.slots[i]);
    forall f: nat
      ensures Count(TableFrames, s, f) >= Count(TableFrames, s.slots[i].tree, f)
    {
      SlotWithin(TableFrames, s, i, f);
    }
  }

  /** What was done behind the entry on the path was done in the whole tree. */
  lemma WalkThrough(m0: Mem, m: Mem, job: MapJob, now: Option<Entry>)
    requires Mappable(m0, job) && job.level > 1
    requires job.Tree(m0).slots[job.path[0]].Sub?
    requires Walked(m0, m, job.Inner(EntryAt(m0.tabs, job.table, job.path[0]).frame), now)
    ensures Walked(m0, m, job, now)
  {
    var i := job.path[0];
    var x := EntryAt(m0.tabs, job.table, i);
    var inner := job.Inner(x.frame);
    var s, t := job.Tree(m0), job.Tree(m);
    InnerMappable(m0, job);
    assert s.slots[i] == SlotOf(m0.tabs, x, i, job.level, job.user);
    var sub, sub' := inner.Tree(m0), inner.Tree(m);
    assert s.slots[i].tree == sub;
    CountRoot(s, i);
    forall f: nat
      ensures Count(TableFrames, sub, f) == 0 && Count(TableFrames, s, f) > 0 ==> Count(TableFrames, sub', f) == 0
    {
      assert Count(TableFrames, s, f) > 0 ==> !m0.Free(f);
    }
    assert Count(TableFrames, s, job.table) > 0;
    assert SameTable(m0.tabs, m.tabs, job.table);
    OneSlotChanges(m0.tabs, m.tabs, job.table, i, job.level, job.user);
    assert t == Tree(job.table, s.slots[i := Sub(x, inner.user, sub')]);
    assert Lookup(s, job.path) == Lookup(sub, job.path[1..]);
    MappingChangedUp(inner.user, s, t, job.path, Lookup(s, job.path), now, x, sub');
    TablesAddedUp(m0, m, s, t, sub, sub', i);
  }

  lemma TablesAddedUp(m0: Mem, m: Mem, s: Tree, t: Tree, sub: Tree, sub': Tree, i: nat)
    requires TablesAdded(m0, m, sub, sub')
    requires i < |s.slots| && s.slots[i].Sub? && s.slots[i].tree == sub
    requires t.frame == s.frame && t.slots == s.slots[i := Sub(s.slots[i].e, s.slots[i].user, sub')]
    ensures TablesAdded(m0, m, s, t)
  {
    forall f: nat
      ensures Count(TableFrames, t, f) == Count(TableFrames, s, f) + if m0.Free(f) && !m.Free(f) then 1 else 0
    {
      CountReplace(TableFrames, s, t, i, f);
    }
    forall f: nat | Count(TableFrames, t, f) == 0
      ensures SameTable(m0.tabs, m.tabs, f)
    {
      SlotWithin(TableFrames, t, i, f);
      assert Count(TableFrames, sub', f) == 0;
    }
  }

  /** Two walks one after the other; the first changed no mapping. */
  lemma WalkTwice(m0: Mem, m1: Mem, m: Mem, job: MapJob, now: Option<Entry>)
    requires Walked(m0, m1, job, Lookup(job.Tree(m0), job.path)) && Walked(m1, m, job, now)
    requires job.Lower() ==> Lookup(job.Tree(m0), job.path).None?
    requires Count(TableFrames, job.Tree(m0), job.table) > 0
    ensures Walked(m0, m, job, now)
  {
    var was := Lookup(job.Tree(m0), job.path);
    var s, s1, t := job.Tree(m0), job.Tree(m1), job.Tree(m);
    MappingChangedTwice(job.Lower(), s, s1, t, job.path, was, was, now);
    forall f: nat
      ensures m.Free(f) ==> m0.Free(f)
      ensures Count(TableFrames, t, f) == Count(TableFrames, s, f) + if m0.Free(f) && !m.Free(f) then 1 else 0
      ensures Count(TableFrames, t, f) == 0 ==> SameTable(m0.tabs, m.tabs, f)
    {
      assert m.Free(f) ==> m1.Free(f);
      assert m1.Free(f) ==> m0.Free(f);
      assert Count(TableFrames, s1, f) == Count(TableFrames, s, f) + if m0.Free(f) && !m1.Free(f) then 1 else 0;
      assert Count(TableFrames, t, f) == Count(TableFrames, s1, f) + if m1.Free(f) && !m.Free(f) then 1 else 0;
      if Count(TableFrames, t, f) == 0 {
        assert SameTable(m0.tabs, m1.tabs, f) && SameTable(m1.tabs, m.tabs, f);
      }
    }
  }

  /** The entry on the path was opened to the user. */
  ghost predicate EntryOpened(m0: Mem, m: Mem, job: MapJob)
    requires job.path != []
  {
    && m.Sized() && |m.tabs| == |m0.tabs| && m == m0.(tabs := m.tabs)
    && EntryAt(m0.tabs, job.table, job.path[0]).present
    && StoredAt(m0.tabs, m.tabs, job.table, job.path[0],
                EntryAt(m0.tabs, job.table, job.path[0]).(writable := true, user := true))
  }

  /** Opening an entry changes no mapping. */
  lemma OpenedEntry(m0: Mem, m: Mem, job: MapJob)
    requires Mappable(m0, job) && job.level > 1 && EntryOpened(m0, m, job)
    ensures Walked(m0, m, job, Lookup(job.Tree(m0), job.path)) && Mappable(m, job)
    ensures job.Tree(m).slots[job.path[0]].Sub? == job.Tree(m0).slots[job.path[0]].Sub? == !EntryAt(m0.tabs, job.table, job.path[0]).huge
    ensures Lookup(job.Tree(m), job.path) == Lookup(job.Tree(m0), job.path)
    ensures Large(job.Tree(m), job.path) == Large(job.Tree(m0), job.path)
    ensures EntryAt(m0.tabs, job.table, job.path[0]).huge ==> Large(job.Tree(m0), job.path) && !job.Lower()
  {
    var i := job.path[0];
    var s, t := job.Tree(m0), job.Tree(m);
    var x := EntryAt(m0.tabs, job.table, i);
    var x' := x.(writable := true, user := true);
    assert s.slots[i] == SlotOf(m0.tabs, x, i, job.level, job.user);
    assert SlotShape(s.slots[i]);
    assert Count(TableFrames, s, job.table) > 0;
    OneSlotChanges(m0.tabs, m.tabs, job.table, i, job.level, job.user);
    if x.huge {
      assert t == Tree(job.table, s.slots[i := Leaf(x', job.user)]);
    } else {
      var su := SubUser(job.level, i, job.user);
      SlotSubSame(m0, m, job, x, su);
      assert t == Tree(job.table, s.slots[i := Sub(x', su, s.slots[i].tree)]);
    }
    SlotRelabelled(s, t, job.path, i, x', job.Lower());
    assert forall f: nat :: m.Free(f) == m0.Free(f);
    forall f: nat | Count(TableFrames, t, f) == 0
      ensures SameTable(m0.tabs, m.tabs, f)
    {
      assert f != job.table;
    }
  }

  /** In the user half the entry was open before, so nothing changed. */
  lemma OpenedIsOpened(m0: Mem, m: Mem, job: MapJob)
    requires Mappable(m0, job) && job.level > 1 && EntryOpened(m0, m, job) && job.table < |m0.tabs|
    requires m.tabs == m0.tabs[job.table := m0.tabs[job.table][job.path[0] :=
      EntryAt(m0.tabs, job.table, job.path[0]).(writable := true, user := true)]]
    ensures Opened(m0, m, job) && Mappable(m, job)
    ensures job.Tree(m).slots[job.path[0]].Sub? == !EntryAt(m0.tabs, job.table, job.path[0]).huge
    ensures Lookup(job.Tree(m), job.path) == Lookup(job.Tree(m0), job.path)
    ensures Large(job.Tree(m), job.path) == Large(job.Tree(m0), job.path)
    ensures EntryAt(m0.tabs, job.table, job.path[0]).huge ==>
      Large(job.Tree(m0), job.path) && Lookup(job.Tree(m0), job.path).None?
  {
    var i := job.path[0];
    OpenedEntry(m0, m, job);
    assert job.Tree(m0).slots[i] == SlotOf(m0.tabs, EntryAt(m0.tabs, job.table, i), i, job.level, job.user);
    if job.Lower() {
      InnerMappable(m0, job);
      assert m0.tabs[job.table][i := m0.tabs[job.table][i]] == m0.tabs[job.table];
      assert m.tabs == m0.tabs;
    }
  }

  lemma SlotSubSame(m0: Mem, m: Mem, job: MapJob, x: Entry, su: bool)
    requires Mappable(m0, job) && job.level > 1 && EntryOpened(m0, m, job)
    requires x == EntryAt(m0.tabs, job.table, job.path[0]) && !x.huge && su == SubUser(job.level, job.path[0], job.user)
    ensures ReadTree(m.tabs, x.frame, job.level - 1, su) == ReadTree(m0.tabs, x.frame, job.level - 1, su)
  {
    var s := job.Tree(m0);
    var i := job.path[0];
    assert s.slots[i] == SlotOf(m0.tabs, x, i, job.level, job.user);
    CountRoot(s, i);
    TreeFrame(m0.tabs, m.tabs, x.frame, job.level - 1, su);
  }

  /** A slot that got other flags counts and leads where it did. */
  lemma SlotRelabelled(s: Tree, t: Tree, path: Path, i: nat, x: Entry, lower: bool)
    requires WalkPath(path, |path|) && |path| > 1 && path[0] == i < |s.slots| && Shape(s, |path|)
    requires x.writable && x.user && !s.slots[i].Absent?
    requires s.slots[i].Leaf? ==> !s.slots[i].user
    requires s.slots[i].Sub? ==> s.slots[i].user == lower
    requires s.slots[i].Leaf? && |path| == TOP_LEVEL ==> i >= USER_HALF
    requires t == Tree(s.frame, s.slots[i := if s.slots[i].Leaf? then Leaf(x, s.slots[i].user) else Sub(x, s.slots[i].user, s.slots[i].tree)])
    ensures MappingChanged(lower, s, t, path, Lookup(s, path), Lookup(s, path)) && Shape(t, |path|)
    ensures Large(t, path) == Large(s, path)
    ensures forall f: nat :: Count(TableFrames, t, f) == Count(TableFrames, s, f)
  {
    forall k: Kind, f: nat
      ensures Count(k, t, f) == Count(k, s, f)
    {
      CountReplace(k, s, t, i, f);
    }
    forall j | 0 <= j < |t.slots|
      ensures SlotShape(t.slots[j])
    {
      assert SlotShape(s.slots[j]);
    }
  }

  /** A new, empty table `nt` was hung into the entry on the path. */
  ghost predicate TableCreated(m0: Mem, m: Mem, job: MapJob, nt: nat)
    requires job.path != []
  {
    && m0.Free(nt)
    && m.Sized() && m.SameShape(m0) && m == m0.(free := m0.free[nt := false], tabs := m.tabs)
    && (forall f: nat :: f != job.table && f != nt ==> SameTable(m0.tabs, m.tabs, f))
    && (forall j: nat :: j < ENTRIES && j != job.path[0] ==> EntryAt(m.tabs, job.table, j) == EntryAt(m0.tabs, job.table, j))
    && (forall j: nat :: j < ENTRIES ==> EntryAt(m.tabs, nt, j) == UNUSED)
    && var x := EntryAt(m.tabs, job.table, job.path[0]);
       x.present && !x.huge && x.writable && x.user && x.frame == nt
  }

  /** The tree with the new table: nothing new is mapped. */
  lemma CreatedTree(m0: Mem, m: Mem, job: MapJob, nt: nat)
    requires Mappable(m0, job) && job.level > 1
    requires !EntryAt(m0.tabs, job.table, job.path[0]).present
    requires TableCreated(m0, m, job, nt)
    ensures Mappable(m, job) && job.Tree(m).slots[job.path[0]].Sub?
    ensures Lookup(job.Tree(m0), job.path).None? && Lookup(job.Tree(m), job.path).None?
    ensures !Large(job.Tree(m0), job.path) && !Large(job.Tree(m), job.path)
    ensures Walked(m0, m, job, None)
  {
    var i := job.path[0];
    var s, t := job.Tree(m0), job.Tree(m);
    var x := EntryAt(m.tabs, job.table, i);
    assert s.slots[i] == SlotOf(m0.tabs, EntryAt(m0.tabs, job.table, i), i, job.level, job.user) == Absent;
    assert Count(TableFrames, s, nt) == 0;
    assert Count(TableFrames, s, job.table) > 0;
    OneSlotChanges(m0.tabs, m.tabs, job.table, i, job.level, job.user);
    var empty := job.Inner(nt).Tree(m);
    assert t.slots[i] == Sub(x, SubUser(job.level, i, job.user), empty);
    forall j: nat | j < ENTRIES
      ensures empty.slots[j] == Absent
    {
      assert empty.slots[j] == SlotOf(m.tabs, UNUSED, j, job.level - 1, job.Inner(nt).user);
    }
    EmptyHung(s, t, job.path, i, x, job.Lower(), empty);
    assert forall f: nat :: Count(TableFrames, empty, f) == (if f == nt then 1 else 0) by {
      forall f: nat
        ensures SlotsCount(TableFrames, empty.slots, f) == 0
      {
        SlotsAllZero(TableFrames, empty.slots, f);
      }
    }
    forall f: nat
      ensures m.Free(f) == (m0.Free(f) && f != nt)
      ensures Count(TableFrames, t, f) == Count(TableFrames, s, f) + if f == nt then 1 else 0
    {
    }
    forall f: nat | Count(TableFrames, t, f) == 0
      ensures SameTable(m0.tabs, m.tabs, f)
    {
      assert f != nt && f != job.table;
    }
  }

  /** An empty table hung into an empty slot. */
  lemma EmptyHung(s: Tree, t: Tree, path: Path, i: nat, x: Entry, lower: bool, empty: Tree)
    requires WalkPath(path, |path|) && |path| > 1 && path[0] == i < |s.slots| && Shape(s, |path|)
    requires s.slots[i] == Absent && x.writable && x.user
    requires forall j :: 0 <= j < |empty.slots| ==> empty.slots[j] == Absent
    requires t == Tree(s.frame, s.slots[i := Sub(x, lower, empty)])
    ensures MappingChanged(lower, s, t, path, None, None) && Shape(t, |path|)
    ensures !Large(s, path) && !Large(t, path)
    ensures forall f: nat :: Count(TableFrames, t, f) == Count(TableFrames, s, f) + Count(TableFrames, empty, f)
  {
    forall k: Kind, f: nat
      ensures Count(k, t, f) == Count(k, s, f) + Count(k, empty, f)
      ensures k != TableFrames ==> Count(k, empty, f) == 0
    {
      SlotsAllZero(k, empty.slots, f);
      CountReplace(k, s, t, i, f);
    }
    forall q: Path | |q| == |path|
      ensures Lookup(t, q) == Lookup(s, q) && Large(t, q) == Large(s, q)
    {
      if q[0] == i {
        assert Lookup(empty, q[1..]).None? && !Large(empty, q[1..]);
      }
    }
    forall j | 0 <= j < |t.slots|
      ensures SlotShape(t.slots[j])
    {
      assert SlotShape(s.slots[j]);
    }
  }

  /** The entry on the path points to a table; the table may be new, or the entry just opened. */
  ghost predicate NextReady(m0: Mem, m1: Mem, job: MapJob) {
    && Mappable(m0, job) && Mappable(m1, job) && job.level > 1
    && job.Tree(m1).slots[job.path[0]].Sub?
    && Mappable(m1, job.Inner(EntryAt(m1.tabs, job.table, job.path[0]).frame))
    && Lookup(job.Tree(m0), job.path) == Lookup(job.Tree(m1), job.path)
      == Lookup(job.Inner(EntryAt(m1.tabs, job.table, job.path[0]).frame).Tree(m1), job.path[1..])
    && Large(job.Tree(m0), job.path) == Large(job.Inner(EntryAt(m1.tabs, job.table, job.path[0]).frame).Tree(m1), job.path[1..])
    && Walked(m0, m1, job, Lookup(job.Tree(m0), job.path))
    && ((Lookup(job.Tree(m0), job.path).None? && !Large(job.Tree(m0), job.path)) || Opened(m0, m1, job))
  }

  /** A mapping made below an entry is a mapping of the whole tree. */
  lemma MapAbove(m0: Mem, m1: Mem, m: Mem, job: MapJob)
    requires NextReady(m0, m1, job)
    requires Mapped(m1, m, job.Inner(EntryAt(m1.tabs, job.table, job.path[0]).frame))
    ensures Mapped(m0, m, job)
  {
    WalkThrough(m1, m, job, Some(job.e));
    assert Count(TableFrames, job.Tree(m0), job.table) > 0;
    WalkTwice(m0, m1, m, job, Some(job.e));
  }

  /** A walk refused below an entry is refused for the whole tree. */
  lemma RefusedAbove(m0: Mem, m1: Mem, m: Mem, job: MapJob)
    requires NextReady(m0, m1, job)
    requires Lookup(job.Tree(m0), job.path).Some? || Large(job.Tree(m0), job.path)
    requires Opened(m1, m, job.Inner(EntryAt(m1.tabs, job.table, job.path[0]).frame))
    ensures Opened(m0, m, job)
  {
    InnerMappable(m1, job);
    WalkThrough(m1, m, job, Lookup(job.Tree(m0), job.path));
    if m1 != m0 && !job.Lower() {
      assert Count(TableFrames, job.Tree(m0), job.table) > 0;
      WalkTwice(m0, m1, m, job, Lookup(job.Tree(m0), job.path));
    }
  }
}
