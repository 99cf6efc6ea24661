/**
 What fork does to the books: the child's tree is a copy of the parent's, both are
 write-protected, and the invariant survives exactly when no 8-bit count overflows.
*/
module ForkProof {
  import opened Prelude
  import opened PageTree
  import opened PhysMems
  import opened TableCopy
  import opened TreeWalk
  import opened FrameBooks

  /** The part of a tree that `r_copy` follows. */
  ghost function Reached(s: Slot): Slot
    decreases s
  {
    match s
    case Absent => Absent
    case Leaf(_, _) => s
    case Sub(e, user, t) => if TooHigh(e) then Absent else Sub(e, user, ReachedTree(t))
  }

  ghost function ReachedTree(t: Tree): Tree
    decreases t
  {
    Tree(t.frame, seq(|t.slots|, i requires 0 <= i < |t.slots| => Reached(t.slots[i])))
  }

  // ---- counts of the two trees after the copy ----

  /** The child maps each frame as often as the reached part of the parent, never writable. */
  lemma {:induction false} CopyCounts(s: Slot, d: Slot, f: nat)
    requires SlotCopy(s, d, true)
    ensures SlotCount(UserMaps, d, f) == SlotCount(UserMaps, Reached(s), f)
    ensures SlotCount(WritableMaps, d, f) == 0
    decreases s, 1
  {
    if s.Sub? && !TooHigh(s.e) {
      TreeCopyCounts(s.tree, d.tree, f);
    }
  }

  lemma {:induction false} TreeCopyCounts(t: Tree, d: Tree, f: nat)
    requires TreeCopy(t, d, true)
    ensures Count(UserMaps, d, f) == Count(UserMaps, ReachedTree(t), f)
    ensures Count(WritableMaps, d, f) == 0
    decreases t, 1
  {
    forall i | 0 <= i < |t.slots|
      ensures SlotCount(UserMaps, d.slots[i], f) == SlotCount(UserMaps, ReachedTree(t).slots[i], f)
      ensures SlotCount(WritableMaps, d.slots[i], f) == 0
    {
      CopyCounts(t.slots[i], d.slots[i], f);
    }
    SlotsPointwise(UserMaps, d.slots, ReachedTree(t).slots, f);
    SlotsAllZero(WritableMaps, d.slots, f);
  }

  /**
   A mapping of the parent that stays writable is one the child did not get: writable mappings
   left plus mappings copied never exceed the mappings there were.
  */
  lemma {:induction false} ProtectedOrReached(s: Slot, f: nat)
    ensures SlotCount(WritableMaps, Protect(s, true), f) + SlotCount(UserMaps, Reached(s), f) <= SlotCount(UserMaps, s, f)
    ensures SlotCount(WritableMaps, Protect(s, true), f) <= SlotCount(WritableMaps, s, f)
    decreases s, 1
  {
    if s.Sub? {
      if TooHigh(s.e) {
        WritableIsUser(s.tree, f);
      } else {
        TreeProtectedOrReached(s.tree, f);
      }
    }
  }

  lemma {:induction false} TreeProtectedOrReached(t: Tree, f: nat)
    ensures Count(WritableMaps, ProtectTree(t, true), f) + Count(UserMaps, ReachedTree(t), f) <= Count(UserMaps, t, f)
    ensures Count(WritableMaps, ProtectTree(t, true), f) <= Count(WritableMaps, t, f)
    decreases t, 1
  {
    forall i | 0 <= i < |t.slots|
      ensures SlotCount(WritableMaps, ProtectTree(t, true).slots[i], f) + SlotCount(UserMaps, ReachedTree(t).slots[i], f)
        <= SlotCount(UserMaps, t.slots[i], f)
      ensures SlotCount(WritableMaps, ProtectTree(t, true).slots[i], f) <= SlotCount(WritableMaps, t.slots[i], f)
    {
      ProtectedOrReached(t.slots[i], f);
    }
    SumsBelow(WritableMaps, ProtectTree(t, true).slots, UserMaps, ReachedTree(t).slots, UserMaps, t.slots, f);
    SumsBelow(WritableMaps, ProtectTree(t, true).slots, WritableMaps, [], WritableMaps, t.slots, f);
  }

  // ---- shapes ----

  lemma {:induction false} ProtectShape(s: Slot)
    requires SlotShape(s)
    ensures SlotShape(Protect(s, true))
    decreases s, 1
  {
    if s.Sub? && !TooHigh(s.e) {
      ProtectTreeShape(s.tree);
    }
  }

  lemma {:induction false} ProtectTreeShape(t: Tree)
    requires UserShape(t)
    ensures UserShape(ProtectTree(t, true))
    decreases t, 1
  {
    forall i | 0 <= i < |t.slots|
      ensures SlotShape(ProtectTree(t, true).slots[i])
    {
      assert SlotShape(t.slots[i]);
      ProtectShape(t.slots[i]);
    }
  }

  lemma {:induction false} CopyShape(s: Slot, d: Slot)
    requires SlotShape(s) && SlotCopy(s, d, true)
    ensures SlotShape(d)
    decreases s, 1
  {
    if s.Sub? && !TooHigh(s.e) {
      TreeCopyShape(s.tree, d.tree);
    }
  }

  lemma {:induction false} TreeCopyShape(t: Tree, d: Tree)
    requires UserShape(t) && TreeCopy(t, d, true)
    ensures UserShape(d)
    decreases t, 1
  {
    forall i | 0 <= i < |d.slots|
      ensures SlotShape(d.slots[i])
    {
      assert SlotShape(t.slots[i]) && SlotCopy(t.slots[i], d.slots[i], true);
      CopyShape(t.slots[i], d.slots[i]);
    }
  }

  // ---- what is mapped where ----

  ghost function FrameAt(t: Tree, path: Path): Option<nat> {
    match Lookup(t, path)
    case None => None
    case Some(e) => Some(e.frame)
  }

  lemma {:induction false} ProtectLookup(t: Tree, path: Path)
    ensures FrameAt(ProtectTree(t, true), path) == FrameAt(t, path)
    decreases path
  {
    if path != [] && path[0] < |t.slots| {
      var s := t.slots[path[0]];
      if s.Sub? && !TooHigh(s.e) {
        ProtectLookup(s.tree, path[1..]);
      }
    }
  }

  lemma {:induction false} CopyLookup(t: Tree, d: Tree, path: Path)
    requires TreeCopy(t, d, true)
    ensures FrameAt(d, path) == FrameAt(ReachedTree(t), path)
    decreases path
  {
    if path != [] && path[0] < |t.slots| {
      var s, x := t.slots[path[0]], d.slots[path[0]];
      assert SlotCopy(s, x, true);
      if s.Sub? && !TooHigh(s.e) {
        CopyLookup(s.tree, x.tree, path[1..]);
      }
    }
  }

  /**
   The entries after the copy: a page of the user half is read-only on both sides; a page above it
   keeps its flags on the old side and is open to the user on the new one.
  */
  lemma {:induction false} CopiedEntry(tabs: Tables, table: nat, level: nat, user: bool, path: Path, d: Tree)
    requires WalkPath(path, level) && TreeCopy(ReadTree(tabs, table, level, user), d, true)
    ensures var t, lower := ReadTree(tabs, table, level, user), SubUser(level, path[0], user);
      match Lookup(ReachedTree(t), path)
      case None => Lookup(d, path) == None
      case Some(e) =>
        && Lookup(t, path) == Some(e)
        && Lookup(d, path) == Some(Entry(e.present, e.writable && !lower, true, e.huge, e.rest, e.frame))
        && Lookup(ProtectTree(t, true), path) == Some(Entry(e.present, e.writable && !lower, e.user, e.huge, e.rest, e.frame))
    decreases level
  {
    var t := ReadTree(tabs, table, level, user);
    var e := EntryAt(tabs, table, path[0]);
    assert t.slots[path[0]] == SlotOf(tabs, e, path[0], level, user);
    var s, x := t.slots[path[0]], d.slots[path[0]];
    assert SlotCopy(s, x, true);
    if level > 1 && s.Sub? && !TooHigh(e) {
      CopiedEntry(tabs, e.frame, level - 1, SubUser(level, path[0], user), path[1..], x.tree);
    }
  }

  /** Where the kernel may write: the walk over entries that are present and writable, through tables that are copied. */
  function KernelWritable(tabs: Tables, table: nat, level: nat, path: Path): Option<nat>
    requires level == |path| > 0
    decreases level
  {
    var e := EntryAt(tabs, table, path[0]);
    if !e.present || !e.writable then None
    else if level == 1 || e.huge then Some(e.frame + Within(path[1..]))
    else if TooHigh(e) then None
    else KernelWritable(tabs, e.frame, level - 1, path[1..])
  }

  /** In the copy of a table, whatever the kernel may write above the user half the program may write too. */
  lemma {:induction false} CopyOpensUpper(tabs: Tables, table: nat, tabs': Tables, dest: nat, level: nat, user: bool, path: Path, copying: bool)
    requires WalkPath(path, level) && !SubUser(level, path[0], user)
    requires TreeCopy(ReadTree(tabs, table, level, user), ReadTree(tabs', dest, level, user), copying)
    requires KernelWritable(tabs, table, level, path).Some? && !user
    ensures Mmu(tabs', dest, level, path, UserMode, true, true) == Granted(KernelWritable(tabs, table, level, path).value)
    decreases level
  {
    var t, d := ReadTree(tabs, table, level, user), ReadTree(tabs', dest, level, user);
    var i := path[0];
    var e, e' := EntryAt(tabs, table, i), EntryAt(tabs', dest, i);
    assert t.slots[i] == SlotOf(tabs, e, i, level, user);
    assert d.slots[i] == SlotOf(tabs', e', i, level, user);
    assert SlotCopy(t.slots[i], d.slots[i], copying);
    if level > 1 && !e.huge {
      CopyOpensUpper(tabs, e.frame, tabs', e'.frame, level - 1, SubUser(level, i, user), path[1..], copying);
    }
  }

  // ---- the fork step ----

  /** The parent `p` was copied to a new root `dest` and the child put at `child`. */
  ghost predicate ForkStep(a: Os, b: Os, p: nat, child: nat, dest: nat) {
    && a.Live(p) && a.m.Free(dest)
    && (|a.tasks| <= child || a.tasks[child].None?)
    && |b.tasks| == (if |a.tasks| <= child then child + 1 else |a.tasks|)
    && (forall q: nat :: q < |b.tasks| && q != child ==> b.tasks[q] == if q < |a.tasks| then a.tasks[q] else None)
    && b.tasks[child] == Some(Task(dest, a.tasks[p].value.brk))
    && Copied(a.m.(free := a.m.free[dest := false]), b.m, CopyJob(a.tasks[p].value.root, dest, TOP_LEVEL, true, false))
  }

  /** The new root can take the copy. */
  lemma ForkReady(a: Os, held: Held, p: nat, dest: nat)
    requires a.Inv(held) && a.Live(p) && a.m.Free(dest)
    ensures Copyable(a.m.(free := a.m.free[dest := false]), CopyJob(a.tasks[p].value.root, dest, TOP_LEVEL, true, false))
  {
    TreeInv(a, held, p);
    SizedAfterTake(a.m, dest);
  }

  /** Parent and child trees after the fork; every other tree is what it was. */
  lemma ForkTrees(a: Os, b: Os, held: Held, p: nat, child: nat, dest: nat)
    requires a.Inv(held) && ForkStep(a, b, p, child, dest)
    ensures b.Live(p) && b.TreeOf(p) == ProtectTree(a.TreeOf(p), true)
    ensures b.Live(child) && TreeCopy(a.TreeOf(p), b.TreeOf(child), true)
    ensures forall q: nat :: a.Live(q) && q != p ==> b.Live(q) && b.TreeOf(q) == a.TreeOf(q)
    ensures Taken(a.m.(free := a.m.free[dest := false]), b.m, b.TreeOf(child))
  {
    var m1 := a.m.(free := a.m.free[dest := false]);
    var job := CopyJob(a.tasks[p].value.root, dest, TOP_LEVEL, true, false);
    SizedAfterTake(a.m, dest);
    CopiedTrees(m1, b.m, job);
    assert job.Source(m1) == a.TreeOf(p);
    forall f: nat | Count(TableFrames, a.TreeOf(p), f) == 0 && !a.m.Free(f)
      ensures SameTable(a.m.tabs, b.m.tabs, f)
    {
      assert Count(TableFrames, job.Dest(b.m), f) == 0;
    }
    forall q: nat | a.Live(q) && q != p
      ensures b.Live(q) && b.TreeOf(q) == a.TreeOf(q)
    {
      OtherTrees(a, b, held, p, q);
    }
  }

  /** Empty places at the end add nothing. */
  lemma {:induction false} SumsPad(k: Kind, ss: seq<Slot>, tt: seq<Slot>, f: nat)
    requires |ss| <= |tt| && (forall i :: 0 <= i < |ss| ==> tt[i] == ss[i])
    requires forall i :: |ss| <= i < |tt| ==> tt[i] == Absent
    ensures SlotsCount(k, tt, f) == SlotsCount(k, ss, f)
  {
    if ss == [] {
      SlotsAllZero(k, tt, f);
    } else {
      SumsPad(k, ss[1..], tt[1..], f);
    }
  }

  lemma ForkTotals(a: Os, b: Os, held: Held, p: nat, child: nat, dest: nat)
    requires a.Inv(held) && ForkStep(a, b, p, child, dest)
    ensures b.Live(p) && b.Live(child)
    ensures forall k: Kind, f: nat ::
      b.Total(k, f) == a.Total(k, f) - Count(k, a.TreeOf(p), f) + Count(k, b.TreeOf(p), f) + Count(k, b.TreeOf(child), f)
  {
    ForkTrees(a, b, held, p, child, dest);
    var bf := b.Forest();
    var without := bf[child := Absent];
    var before := without[p := a.Forest()[p]];
    forall i | 0 <= i < |before|
      ensures before[i] == if i < |a.tasks| then a.Forest()[i] else Absent
    {
    }
    forall k: Kind, f: nat
      ensures b.Total(k, f) == a.Total(k, f) - Count(k, a.TreeOf(p), f) + Count(k, b.TreeOf(p), f) + Count(k, b.TreeOf(child), f)
    {
      SlotsUpdate(k, bf, child, Absent, f);
      SlotsUpdate(k, without, p, a.Forest()[p], f);
      SumsPad(k, a.Forest(), before, f);
    }
  }

  /** No frame of the parent would get a 256th mapping. */
  ghost predicate ForkFits(a: Os, p: nat)
    requires a.Live(p)
  {
    forall f: nat :: a.m.Refs(f) + Count(UserMaps, ReachedTree(a.TreeOf(p)), f) < COUNT_LIMIT
  }

  /** The three totals of one frame after the fork. */
  lemma ForkFrame(a: Os, b: Os, held: Held, p: nat, child: nat, dest: nat, f: nat)
    requires a.Inv(held) && ForkStep(a, b, p, child, dest)
    ensures b.Live(p) && b.Live(child)
    ensures b.Total(TableFrames, f) == a.Total(TableFrames, f) + Count(TableFrames, b.TreeOf(child), f)
    ensures b.Total(UserMaps, f) == a.Total(UserMaps, f) + Count(UserMaps, ReachedTree(a.TreeOf(p)), f)
    ensures b.Total(WritableMaps, f) <= a.Total(WritableMaps, f)
    ensures b.Total(WritableMaps, f) > 0 ==> b.Total(UserMaps, f) == 1
  {
    var t := a.TreeOf(p);
    ForkTrees(a, b, held, p, child, dest);
    ForkTotals(a, b, held, p, child, dest);
    TreeCopyCounts(t, b.TreeOf(child), f);
    TreeProtectedOrReached(t, f);
    ProtectTreeCounts(TableFrames, t, true, f);
    ProtectTreeCounts(UserMaps, t, true, f);
    assert b.Total(WritableMaps, f) == a.Total(WritableMaps, f) - Count(WritableMaps, t, f) + Count(WritableMaps, b.TreeOf(p), f);
    TaskShare(a, p);
    assert a.FrameInv(f, held);
    if b.Total(WritableMaps, f) > 0 {
      WritableElsewhere(a, p, f);
    }
  }

  /** Writable mappings outside process `p` are user mappings outside process `p`. */
  lemma WritableElsewhere(a: Os, p: nat, f: nat)
    requires a.Live(p)
    ensures a.Total(WritableMaps, f) - Count(WritableMaps, a.TreeOf(p), f) <= a.Total(UserMaps, f) - Count(UserMaps, a.TreeOf(p), f)
  {
    var others := a.Forest()[p := Absent];
    SlotsUpdate(WritableMaps, a.Forest(), p, Absent, f);
    SlotsUpdate(UserMaps, a.Forest(), p, Absent, f);
    forall i | 0 <= i < |others|
      ensures SlotCount(WritableMaps, others[i], f) <= SlotCount(UserMaps, others[i], f)
    {
      if others[i].Sub? {
        WritableIsUser(others[i].tree, f);
      }
    }
    SumsBelow(WritableMaps, others, WritableMaps, [], UserMaps, others, f);
  }

  /**
   Fork keeps every frame accounted for if and only if no frame gets a 256th mapping; the
   8-bit count wraps otherwise.
  */
  lemma ForkKeepsBooks(a: Os, b: Os, held: Held, p: nat, child: nat, dest: nat)
    requires a.Inv(held) && ForkStep(a, b, p, child, dest)
    ensures b.Inv(held) <==> ForkFits(a, p)
  {
    ForkTrees(a, b, held, p, child, dest);
    var m1 := a.m.(free := a.m.free[dest := false]);
    SizedAfterTake(a.m, dest);
    forall f: nat
      ensures b.FrameInv(f, held) <==> a.m.Refs(f) + Count(UserMaps, ReachedTree(a.TreeOf(p)), f) < COUNT_LIMIT
    {
      ForkFrame(a, b, held, p, child, dest, f);
      ForkRoles(a, b, held, p, child, dest, f);
    }
    ProtectTreeShape(a.TreeOf(p));
    TreeCopyShape(a.TreeOf(p), b.TreeOf(child));
    forall q: nat | b.Live(q)
      ensures Shape(b.TreeOf(q), TOP_LEVEL)
    {
      assert Shape(a.TreeOf(if q == child then p else q), TOP_LEVEL);
      if q == child {
        forall i | 0 <= i < USER_HALF
          ensures !b.TreeOf(q).slots[i].Leaf?
        {
          assert SlotCopy(a.TreeOf(p).slots[i], b.TreeOf(child).slots[i], true);
        }
      }
    }
  }

  /** The numbers of one frame before and after a fork. */
  lemma ForkNumbers(a: Os, b: Os, held: Held, p: nat, child: nat, dest: nat, f: nat)
    requires a.Inv(held) && ForkStep(a, b, p, child, dest)
    ensures b.Live(child)
    ensures b.m.Free(f) == (a.m.Free(f) && Count(TableFrames, b.TreeOf(child), f) == 0)
    ensures Count(TableFrames, b.TreeOf(child), f) > 0 ==> a.m.Free(f)
    ensures Count(TableFrames, b.TreeOf(child), f) <= 1
    ensures Count(UserMaps, ReachedTree(a.TreeOf(p)), f) <= a.Total(UserMaps, f)
    ensures f < |a.m.refs| ==> b.m.Refs(f) == (a.m.Refs(f) + Count(UserMaps, ReachedTree(a.TreeOf(p)), f)) % COUNT_LIMIT
    ensures f >= |a.m.refs| ==> b.m.Refs(f) == 0
    ensures |b.m.tabs| == |a.m.tabs| == |a.m.refs|
  {
    ForkTrees(a, b, held, p, child, dest);
    SizedAfterTake(a.m, dest);
    var m1 := a.m.(free := a.m.free[dest := false]);
    assert Count(TableFrames, b.TreeOf(child), dest) > 0;
    assert b.m.Free(f) == (m1.Free(f) && Count(TableFrames, b.TreeOf(child), f) == 0);
    assert m1.Refs(f) == a.m.Refs(f);
    TreeCopyCounts(a.TreeOf(p), b.TreeOf(child), f);
    TreeProtectedOrReached(a.TreeOf(p), f);
    TaskShare(a, p);
  }

  lemma ForkRoles(a: Os, b: Os, held: Held, p: nat, child: nat, dest: nat, f: nat)
    requires a.Inv(held) && ForkStep(a, b, p, child, dest)
    ensures b.Roles(f, held) == (if f < |b.m.tabs| then 1 else 0) && b.Total(TableFrames, f) <= 1
    ensures b.m.Refs(f) == b.Total(UserMaps, f) + Carried(held, f) <==> a.m.Refs(f) + Count(UserMaps, ReachedTree(a.TreeOf(p)), f) < COUNT_LIMIT
  {
    ForkFrame(a, b, held, p, child, dest, f);
    ForkNumbers(a, b, held, p, child, dest, f);
    assert a.FrameInv(f, held);
  }
}
