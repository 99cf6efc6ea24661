/**
 What `r_copy` does to memory (kernel/src/task/process.rs), as a relation between the memory
 before, the memory after, and the two trees.
*/
module TableCopy {
  import opened PageTree
  import opened PhysMems

  /** A table whose address is above 4 GiB is not copied. */
  predicate TooHigh(e: Entry) { e.frame * PAGE_BYTES > HIGH_ADDRESS }

  lemma TooHighOutright(e: Entry)
    ensures TooHigh(e) <==> e.frame > 0x10_0000
  {
  }

  /** The flags a copied user mapping ends with in the source table. */
  function SourceLeaf(e: Entry, user: bool, copying: bool): Entry {
    if user && copying then e.(writable := false) else e
  }

  function CopiedLeaf(e: Entry, user: bool, copying: bool): Entry {
    SourceLeaf(e, user, copying).(user := true)
  }

  function CopiedTableEntry(e: Entry, frame: nat): Entry { e.(user := true, frame := frame) }

  ghost function Protect(s: Slot, copying: bool): Slot
    decreases s
  {
    match s
    case Absent => Absent
    case Leaf(e, user) => Leaf(SourceLeaf(e, user, copying), user)
    case Sub(e, user, t) => if TooHigh(e) then s else Sub(e, user, ProtectTree(t, copying))
  }

  /** The source tree after the copy: user mappings lose their writable flag. */
  ghost function ProtectTree(t: Tree, copying: bool): Tree
    decreases t
  {
    Tree(t.frame, seq(|t.slots|, i requires 0 <= i < |t.slots| => Protect(t.slots[i], copying)))
  }

  /** `d` is a copy of `s`: equal mappings, new tables, nothing where `r_copy` skips. */
  ghost predicate SlotCopy(s: Slot, d: Slot, copying: bool)
    decreases s
  {
    match s
    case Absent => d == Absent
    case Leaf(e, user) => d == Leaf(CopiedLeaf(e, user, copying), user)
    case Sub(e, user, t) =>
      if TooHigh(e) then d == Absent
      else d.Sub? && d.user == user && d.e == CopiedTableEntry(e, d.tree.frame) && TreeCopy(t, d.tree, copying)
  }

  ghost predicate TreeCopy(t: Tree, d: Tree, copying: bool)
    decreases t
  {
    |d.slots| == |t.slots| && forall i :: 0 <= i < |t.slots| ==> SlotCopy(t.slots[i], d.slots[i], copying)
  }

  /** The arguments of one `r_copy` call. */
  datatype CopyJob = CopyJob(src: nat, dest: nat, level: nat, copying: bool, user: bool) {

    ghost function Source(m: Mem): Tree { ReadTree(m.tabs, src, level, user) }

    ghost function Dest(m: Mem): Tree { ReadTree(m.tabs, dest, level, user) }

    /** The call made for the table that `e`, entry `i` of the source, points to. */
    function Inner(e: Entry, i: nat, frame: nat): CopyJob
      requires level > 0
    {
      CopyJob(e.frame, frame, level - 1, copying, SubUser(level, i, user))
    }
  }

  /** The state of the copy loop when the first `i` entries are done. */
  ghost predicate CopiedUpTo(m0: Mem, m: Mem, job: CopyJob, i: nat)
  {
    && m.Sized() && m.SameShape(m0) && m.data == m0.data && m.warnings == m0.warnings
    && SourceUpTo(job.Source(m0), job.Source(m), job.copying, i)
    && DestUpTo(job.Source(m0), job.Dest(m), job.copying, i)
    && Taken(m0, m, job.Dest(m))
    && Untouched(m0, m, job.Source(m0), job.Dest(m))
  }

  ghost predicate SourceUpTo(t: Tree, s: Tree, copying: bool, i: nat) {
    |s.slots| == |t.slots| && s.frame == t.frame
    && forall j :: 0 <= j < |t.slots| ==> s.slots[j] == if j < i then Protect(t.slots[j], copying) else t.slots[j]
  }

  ghost predicate DestUpTo(t: Tree, d: Tree, copying: bool, i: nat) {
    |d.slots| == |t.slots|
    && forall j :: 0 <= j < |t.slots| ==> if j < i then SlotCopy(t.slots[j], d.slots[j], copying) else d.slots[j] == Absent
  }

  /** The tables of `d` other than its root were free; exactly they and its mappings were booked. */
  ghost predicate Taken(m0: Mem, m: Mem, d: Tree) {
    && (forall f: nat :: m.Free(f) == (m0.Free(f) && Count(TableFrames, d, f) == 0))
    && (forall f: nat :: Count(TableFrames, d, f) <= 1)
    && (forall f: nat :: f != d.frame && Count(TableFrames, d, f) > 0 ==> m0.Free(f))
    && (forall f: nat :: f < |m0.refs| ==> m.Refs(f) == (m0.Refs(f) + Count(UserMaps, d, f)) % COUNT_LIMIT)
  }

  ghost predicate Untouched(m0: Mem, m: Mem, t: Tree, d: Tree) {
    forall f: nat :: Count(TableFrames, d, f) == 0 && Count(TableFrames, t, f) == 0 ==> SameTable(m0.tabs, m.tabs, f)
  }

  /** What `r_copy` asks of its source and destination. */
  ghost predicate Copyable(m: Mem, job: CopyJob) {
    && m.Sized()
    && OwnsTables(m, job.Source(m)) && MapsFrames(m, job.Source(m))
    && job.dest < |m.tabs| && !m.Free(job.dest) && Count(TableFrames, job.Source(m), job.dest) == 0
  }

  ghost predicate Copied(m0: Mem, m: Mem, job: CopyJob) {
    CopiedUpTo(m0, m, job, ENTRIES)
  }

  /** A finished copy, tree by tree. */
  lemma CopiedTrees(m0: Mem, m: Mem, job: CopyJob)
    requires Copied(m0, m, job)
    ensures job.Source(m) == ProtectTree(job.Source(m0), job.copying)
    ensures TreeCopy(job.Source(m0), job.Dest(m), job.copying)
  {
    assert job.Source(m).slots == ProtectTree(job.Source(m0), job.copying).slots;
  }

  /**
   One entry of a copied table, flag by flag: a mapping keeps its frame and is open to the user, and
   only a user mapping of a process copy loses its writable flag, on both sides; a table is replaced
   by a new one below the same flags, open to the user; what is absent or too high is absent.
  */
  lemma CopiedSlot(t: Tree, d: Tree, copying: bool, i: nat)
    requires TreeCopy(t, d, copying) && i < |t.slots|
    ensures i < |d.slots| && i < |ProtectTree(t, copying).slots|
    ensures var was, src, new_ := t.slots[i], ProtectTree(t, copying).slots[i], d.slots[i];
      match was
      case Absent => src == Absent && new_ == Absent
      case Leaf(e, user) =>
        var writable := e.writable && !(user && copying);
        && src == Leaf(Entry(e.present, writable, e.user, e.huge, e.rest, e.frame), user)
        && new_ == Leaf(Entry(e.present, writable, true, e.huge, e.rest, e.frame), user)
      case Sub(e, user, below) =>
        if e.frame > 0x10_0000 then src == was && new_ == Absent
        else
          && src == Sub(e, user, ProtectTree(below, copying))
          && new_.Sub? && new_.user == user && TreeCopy(below, new_.tree, copying)
          && new_.e == Entry(e.present, e.writable, true, e.huge, e.rest, new_.tree.frame)
  {
    assert SlotCopy(t.slots[i], d.slots[i], copying);
    if t.slots[i].Sub? {
      TooHighOutright(t.slots[i].e);
    }
  }

  // ---- copying and protecting keep the table frames and the mappings ----

  lemma {:induction false} ProtectCounts(k: Kind, s: Slot, copying: bool, f: nat)
    requires k != WritableMaps
    ensures SlotCount(k, Protect(s, copying), f) == SlotCount(k, s, f)
    decreases s, 1
  {
    if s.Sub? && !TooHigh(s.e) {
      ProtectTreeCounts(k, s.tree, copying, f);
    }
  }

  lemma {:induction false} ProtectTreeCounts(k: Kind, t: Tree, copying: bool, f: nat)
    requires k != WritableMaps
    ensures Count(k, ProtectTree(t, copying), f) == Count(k, t, f)
    decreases t, 1
  {
    forall i | 0 <= i < |t.slots|
      ensures SlotCount(k, ProtectTree(t, copying).slots[i], f) == SlotCount(k, t.slots[i], f)
    {
      ProtectCounts(k, t.slots[i], copying, f);
    }
    SlotsPointwise(k, ProtectTree(t, copying).slots, t.slots, f);
  }

  lemma {:induction false} SlotsPointwise(k: Kind, a: seq<Slot>, b: seq<Slot>, f: nat)
    requires |a| == |b|
    requires forall i :: 0 <= i < |a| ==> SlotCount(k, a[i], f) == SlotCount(k, b[i], f)
    ensures SlotsCount(k, a, f) == SlotsCount(k, b, f)
  {
    if a != [] {
      SlotsPointwise(k, a[1..], b[1..], f);
    }
  }

  // ---- one turn of the loop ----

  /** Before the first turn: the destination was cleared. */
  lemma CopyStart(m0: Mem, job: CopyJob)
    requires Copyable(m0, job)
    ensures CopiedUpTo(m0, m0.(tabs := m0.tabs[job.dest := ZERO_TABLE]), job, 0)
  {
    var m := m0.(tabs := m0.tabs[job.dest := ZERO_TABLE]);
    TreeFrame(m0.tabs, m.tabs, job.src, job.level, job.user);
    var d := job.Dest(m);
    forall j | 0 <= j < ENTRIES
      ensures d.slots[j] == Absent
    {
      assert EntryAt(m.tabs, job.dest, j) == UNUSED
        && d.slots[j] == SlotAt(m.tabs, job.dest, j, job.level, job.user) == SlotOf(m.tabs, UNUSED, j, job.level, job.user) == Absent;
    }
    forall k: Kind, f: nat
      ensures SlotsCount(k, d.slots, f) == 0
    {
      SlotsAllZero(k, d.slots, f);
    }
    assert Taken(m0, m, d) by {
      assert forall f: nat :: Count(UserMaps, d, f) == 0;
      assert forall f: nat :: Count(TableFrames, d, f) == if f == job.dest then 1 else 0;
    }
  }

  /** In the middle of the copy the source still has its tables; the two trees share none. */
  lemma CopyApart(m0: Mem, m: Mem, job: CopyJob, i: nat)
    requires Copyable(m0, job) && CopiedUpTo(m0, m, job, i)
    ensures forall f: nat :: Count(TableFrames, job.Source(m), f) == Count(TableFrames, job.Source(m0), f)
    ensures forall f: nat :: Count(TableFrames, job.Source(m), f) > 0 ==> Count(TableFrames, job.Dest(m), f) == 0 && !m.Free(f)
    ensures job.src < |m.tabs| && job.src != job.dest && job.dest < |m.tabs| && !m.Free(job.dest)
  {
    var t, s, d := job.Source(m0), job.Source(m), job.Dest(m);
    forall f: nat
      ensures Count(TableFrames, s, f) == Count(TableFrames, t, f)
    {
      forall j | 0 <= j < |t.slots|
        ensures SlotCount(TableFrames, s.slots[j], f) == SlotCount(TableFrames, t.slots[j], f)
      {
        ProtectCounts(TableFrames, t.slots[j], job.copying, f);
      }
      SlotsPointwise(TableFrames, s.slots, t.slots, f);
    }
    assert Count(TableFrames, t, job.src) > 0;
    assert Count(TableFrames, d, job.dest) > 0;
  }

  /** An entry that is not present, or points to a table above 4 GiB, is passed over. */
  lemma StepSkip(m0: Mem, m: Mem, job: CopyJob, i: nat)
    requires CopiedUpTo(m0, m, job, i) && i < ENTRIES
    requires var s := job.Source(m0).slots[i]; s.Absent? || (s.Sub? && TooHigh(s.e))
    ensures CopiedUpTo(m0, m, job, i + 1)
  {
  }

  /** The state after the mapping `e` in entry `i` was copied. */
  ghost predicate LeafStored(m: Mem, m': Mem, job: CopyJob, i: nat, e: Entry) {
    && m'.Sized() && m'.SameShape(m) && m'.free == m.free && m'.data == m.data && m'.warnings == m.warnings
    && (forall f: nat :: f < |m.refs| ==>
         m'.Refs(f) == if job.user && f == e.frame then (m.Refs(f) + 1) % COUNT_LIMIT else m.Refs(f))
    && LeafEntries(m.tabs, m'.tabs, job, i, e)
  }

  ghost predicate LeafEntries(a: Tables, b: Tables, job: CopyJob, i: nat, e: Entry) {
    && (forall f: nat :: f != job.src && f != job.dest ==> SameTable(a, b, f))
    && (forall j: nat :: j < ENTRIES && j != i ==> EntryAt(b, job.src, j) == EntryAt(a, job.src, j))
    && (forall j: nat :: j < ENTRIES && j != i ==> EntryAt(b, job.dest, j) == EntryAt(a, job.dest, j))
    && EntryAt(b, job.src, i) == SourceLeaf(e, job.user, job.copying)
    && EntryAt(b, job.dest, i) == CopiedLeaf(e, job.user, job.copying)
  }

  lemma StepLeafTrees(m0: Mem, m: Mem, m': Mem, job: CopyJob, i: nat, e: Entry)
    requires Copyable(m0, job) && CopiedUpTo(m0, m, job, i) && i < ENTRIES
    requires job.Source(m0).slots[i] == Leaf(e, job.user)
    requires LeafEntries(m.tabs, m'.tabs, job, i, e)
    ensures job.Source(m') == Tree(job.src, job.Source(m).slots[i := Leaf(SourceLeaf(e, job.user, job.copying), job.user)])
    ensures job.Dest(m') == Tree(job.dest, job.Dest(m).slots[i := Leaf(CopiedLeaf(e, job.user, job.copying), job.user)])
  {
    CopyApart(m0, m, job, i);
    assert Count(TableFrames, job.Source(m), job.src) > 0;
    assert Count(TableFrames, job.Dest(m), job.dest) > 0;
    OneSlotChanges(m.tabs, m'.tabs, job.src, i, job.level, job.user);
    OneSlotChanges(m.tabs, m'.tabs, job.dest, i, job.level, job.user);
    assert job.Source(m).slots[i] == SlotOf(m.tabs, EntryAt(m.tabs, job.src, i), i, job.level, job.user);
  }

  /** Putting slot `x` into an empty place of `d`: the booking of `d` grows by that of `x`. */
  lemma CountsGrow(d: Tree, d': Tree, i: nat, x: Slot)
    requires i < |d.slots| && d.slots[i] == Absent && d' == Tree(d.frame, d.slots[i := x])
    ensures forall k: Kind, f: nat :: Count(k, d', f) == Count(k, d, f) + SlotCount(k, x, f)
  {
    forall k: Kind, f: nat
      ensures Count(k, d', f) == Count(k, d, f) + SlotCount(k, x, f)
    {
      CountReplace(k, d, d', i, f);
    }
  }

  lemma StepLeaf(m0: Mem, m: Mem, m': Mem, job: CopyJob, i: nat, e: Entry)
    requires Copyable(m0, job) && CopiedUpTo(m0, m, job, i) && i < ENTRIES
    requires job.Source(m0).slots[i] == Leaf(e, job.user)
    requires LeafStored(m, m', job, i, e)
    ensures CopiedUpTo(m0, m', job, i + 1)
  {
    var t, d, d' := job.Source(m0), job.Dest(m), job.Dest(m');
    StepLeafTrees(m0, m, m', job, i, e);
    CountsGrow(d, d', i, Leaf(CopiedLeaf(e, job.user, job.copying), job.user));
    assert forall f: nat :: Count(TableFrames, d', f) == Count(TableFrames, d, f);
    assert forall f: nat :: Count(UserMaps, d', f) == Count(UserMaps, d, f) + if job.user && e.frame == f then 1 else 0;
    LeafTaken(m0, m, m', d, d', e.frame, job.user);
    assert Count(TableFrames, t, job.src) > 0 && Count(TableFrames, d', job.dest) > 0;
    LeafUntouched(m0, m, m', t, d, d', job.src, job.dest);
  }

  /** One mapping more, with its reference. */
  lemma LeafTaken(m0: Mem, m: Mem, m': Mem, d: Tree, d': Tree, frame: nat, user: bool)
    requires Taken(m0, m, d) && m.Sized() && m.SameShape(m0) && d'.frame == d.frame && m'.free == m.free
    requires forall f: nat :: Count(TableFrames, d', f) == Count(TableFrames, d, f)
    requires forall f: nat :: Count(UserMaps, d', f) == Count(UserMaps, d, f) + if user && frame == f then 1 else 0
    requires forall f: nat :: f < |m.refs| ==> m'.Refs(f) == if user && f == frame then (m.Refs(f) + 1) % COUNT_LIMIT else m.Refs(f)
    ensures Taken(m0, m', d')
  {
    assert forall f: nat :: m'.Free(f) == m.Free(f);
  }

  lemma LeafUntouched(m0: Mem, m: Mem, m': Mem, t: Tree, d: Tree, d': Tree, src: nat, dest: nat)
    requires Untouched(m0, m, t, d) && Count(TableFrames, t, src) > 0 && Count(TableFrames, d', dest) > 0
    requires forall f: nat :: Count(TableFrames, d', f) == Count(TableFrames, d, f)
    requires forall f: nat :: f != src && f != dest ==> SameTable(m.tabs, m'.tabs, f)
    ensures Untouched(m0, m', t, d')
  {
    forall f: nat | Count(TableFrames, d', f) == 0 && Count(TableFrames, t, f) == 0
      ensures SameTable(m0.tabs, m'.tabs, f)
    {
      assert SameTable(m0.tabs, m.tabs, f) && SameTable(m.tabs, m'.tabs, f);
    }
  }

  /** The state when a new table `nt` is hung into entry `i` of the destination. */
  ghost predicate TableHung(m: Mem, m1: Mem, job: CopyJob, i: nat, e: Entry, nt: nat) {
    && m.Free(nt)
    && m1 == m.(free := m.free[nt := false], tabs := m1.tabs)
    && |m1.tabs| == |m.tabs| && m1.Sized()
    && (forall f: nat :: f != job.dest ==> SameTable(m.tabs, m1.tabs, f))
    && (forall j: nat :: j < ENTRIES && j != i ==> EntryAt(m1.tabs, job.dest, j) == EntryAt(m.tabs, job.dest, j))
    && EntryAt(m1.tabs, job.dest, i) == CopiedTableEntry(e, nt)
  }

  /** The table behind entry `i` can be copied into the new table. */
  lemma SubReady(m0: Mem, m: Mem, m1: Mem, job: CopyJob, i: nat, e: Entry, nt: nat)
    requires Copyable(m0, job) && CopiedUpTo(m0, m, job, i) && i < ENTRIES && job.level > 0
    requires job.Source(m0).slots[i].Sub? && job.Source(m0).slots[i].e == e
    requires TableHung(m, m1, job, i, e, nt)
    ensures Copyable(m1, job.Inner(e, i, nt))
    ensures job.Inner(e, i, nt).Source(m1) == job.Source(m0).slots[i].tree
  {
    var t := job.Source(m0);
    var inner := job.Inner(e, i, nt);
    CopyApart(m0, m, job, i);
    assert t.slots[i] == SlotOf(m0.tabs, EntryAt(m0.tabs, job.src, i), i, job.level, job.user);
    var sub := t.slots[i].tree;
    assert inner.Source(m) == sub by {
      assert job.Source(m).slots[i] == SlotOf(m.tabs, EntryAt(m.tabs, job.src, i), i, job.level, job.user);
    }
    forall f: nat
      ensures Count(TableFrames, t, f) >= Count(TableFrames, sub, f) && Count(UserMaps, t, f) >= Count(UserMaps, sub, f)
    {
      SlotWithin(TableFrames, t, i, f);
      SlotWithin(UserMaps, t, i, f);
    }
    TreeFrame(m.tabs, m1.tabs, e.frame, job.level - 1, inner.user);
  }

  /** The inner copy changes only the tables of the two subtrees and entry `i` of the destination. */
  lemma SubTrees(m0: Mem, m: Mem, m1: Mem, m2: Mem, job: CopyJob, i: nat, e: Entry, nt: nat)
    requires Copyable(m0, job) && CopiedUpTo(m0, m, job, i) && i < ENTRIES && job.level > 0
    requires job.Source(m0).slots[i].Sub? && job.Source(m0).slots[i].e == e && !TooHigh(e)
    requires TableHung(m, m1, job, i, e, nt)
    requires Copied(m1, m2, job.Inner(e, i, nt))
    ensures job.Source(m2) == Tree(job.src, job.Source(m).slots[i := Protect(job.Source(m0).slots[i], job.copying)])
    ensures job.Dest(m2) == Tree(job.dest, job.Dest(m).slots[i :=
      Sub(CopiedTableEntry(e, nt), SubUser(job.level, i, job.user), job.Inner(e, i, nt).Dest(m2))])
  {
    var t, s, d := job.Source(m0), job.Source(m), job.Dest(m);
    var inner := job.Inner(e, i, nt);
    var sub, copy := t.slots[i].tree, inner.Dest(m2);
    SubReady(m0, m, m1, job, i, e, nt);
    CopyApart(m0, m, job, i);
    CopiedTrees(m1, m2, inner);
    forall f: nat
      ensures Count(TableFrames, s, f) > 0 ==> Count(TableFrames, copy, f) == 0
      ensures Count(TableFrames, d, f) > 0 ==> Count(TableFrames, copy, f) == 0 && Count(TableFrames, sub, f) == 0
    {
      SlotWithin(TableFrames, t, i, f);
    }
    assert Count(TableFrames, s, job.src) > 0 && Count(TableFrames, d, job.dest) > 0;
    assert s.slots[i] == t.slots[i];
    assert Count(TableFrames, sub, job.src) == 0 by {
      CountRoot(s, i);
    }
    assert t.slots[i] == SlotOf(m0.tabs, EntryAt(m0.tabs, job.src, i), i, job.level, job.user);
    assert s.slots[i] == SlotOf(m.tabs, EntryAt(m.tabs, job.src, i), i, job.level, job.user);
    forall f: nat | Count(TableFrames, sub, f) == 0 && Count(TableFrames, copy, f) == 0 && f != job.dest
      ensures SameTable(m.tabs, m2.tabs, f)
    {
      assert SameTable(m.tabs, m1.tabs, f) && SameTable(m1.tabs, m2.tabs, f);
    }
    assert SameTable(m1.tabs, m2.tabs, job.dest);
    OneSlotChanges(m.tabs, m2.tabs, job.src, i, job.level, job.user);
    OneSlotChanges(m.tabs, m2.tabs, job.dest, i, job.level, job.user);
  }

  lemma StepSub(m0: Mem, m: Mem, m1: Mem, m2: Mem, job: CopyJob, i: nat, e: Entry, nt: nat)
    requires Copyable(m0, job) && CopiedUpTo(m0, m, job, i) && i < ENTRIES && job.level > 0
    requires job.Source(m0).slots[i].Sub? && job.Source(m0).slots[i].e == e && !TooHigh(e)
    requires TableHung(m, m1, job, i, e, nt)
    requires Copied(m1, m2, job.Inner(e, i, nt))
    ensures CopiedUpTo(m0, m2, job, i + 1)
  {
    var t, d, d' := job.Source(m0), job.Dest(m), job.Dest(m2);
    var inner := job.Inner(e, i, nt);
    var sub, copy := t.slots[i].tree, inner.Dest(m2);
    SubReady(m0, m, m1, job, i, e, nt);
    SubTrees(m0, m, m1, m2, job, i, e, nt);
    CopiedTrees(m1, m2, inner);
    var x := Sub(CopiedTableEntry(e, nt), SubUser(job.level, i, job.user), copy);
    assert SlotCopy(t.slots[i], x, job.copying) by {
      assert t.slots[i] == SlotOf(m0.tabs, EntryAt(m0.tabs, job.src, i), i, job.level, job.user);
    }
    CountsGrow(d, d', i, x);
    assert forall k: Kind, f: nat :: Count(k, d', f) == Count(k, d, f) + Count(k, copy, f);
    TakenGrows(m0, m, m1, m2, d, d', copy, nt);
    forall f: nat | Count(TableFrames, d', f) == 0 && Count(TableFrames, t, f) == 0
      ensures SameTable(m0.tabs, m2.tabs, f)
    {
      SlotWithin(TableFrames, t, i, f);
      assert Count(TableFrames, d', job.dest) > 0;
      assert SameTable(m0.tabs, m.tabs, f) && SameTable(m.tabs, m1.tabs, f) && SameTable(m1.tabs, m2.tabs, f);
    }
  }

  lemma TakenGrows(m0: Mem, m: Mem, m1: Mem, m2: Mem, d: Tree, d': Tree, copy: Tree, nt: nat)
    requires m0.Sized() && m.Sized() && m2.SameShape(m0) && m.SameShape(m0)
    requires m.Free(nt) && m1 == m.(free := m.free[nt := false], tabs := m1.tabs)
    requires copy.frame == nt && d'.frame == d.frame
    requires Taken(m0, m, d) && Taken(m1, m2, copy)
    requires forall k: Kind, f: nat :: Count(k, d', f) == Count(k, d, f) + Count(k, copy, f)
    ensures Taken(m0, m2, d')
  {
    forall f: nat
      ensures m2.Free(f) == (m0.Free(f) && Count(TableFrames, d', f) == 0)
      ensures Count(TableFrames, d', f) <= 1
      ensures f != d'.frame && Count(TableFrames, d', f) > 0 ==> m0.Free(f)
    {
      TablesTaken(m0, m, m1, m2, d, d', copy, nt, f);
    }
    forall f: nat | f < |m0.refs|
      ensures m2.Refs(f) == (m0.Refs(f) + Count(UserMaps, d', f)) % COUNT_LIMIT
    {
      assert m1.Refs(f) == m.Refs(f);
      assert m2.Refs(f) == (m1.Refs(f) + Count(UserMaps, copy, f)) % COUNT_LIMIT;
      AddTwice(m0.Refs(f), Count(UserMaps, d, f), Count(UserMaps, copy, f));
    }
  }

  /** The same for one frame and the table frames only. */
  lemma TablesTaken(m0: Mem, m: Mem, m1: Mem, m2: Mem, d: Tree, d': Tree, copy: Tree, nt: nat, f: nat)
    requires m.Free(nt) && m1 == m.(free := m.free[nt := false], tabs := m1.tabs)
    requires copy.frame == nt && d'.frame == d.frame
    requires Taken(m0, m, d) && Taken(m1, m2, copy)
    requires Count(TableFrames, d', f) == Count(TableFrames, d, f) + Count(TableFrames, copy, f)
    ensures m2.Free(f) == (m0.Free(f) && Count(TableFrames, d', f) == 0)
    ensures Count(TableFrames, d', f) <= 1
    ensures f != d'.frame && Count(TableFrames, d', f) > 0 ==> m0.Free(f)
  {
    assert Count(TableFrames, copy, nt) > 0;
    assert m1.Free(f) == (m.Free(f) && f != nt);
    assert m2.Free(f) == (m1.Free(f) && Count(TableFrames, copy, f) == 0);
    assert m.Free(f) == (m0.Free(f) && Count(TableFrames, d, f) == 0);
    assert Count(TableFrames, d, f) <= 1 && Count(TableFrames, copy, f) <= 1;
  }

  lemma AddTwice(a: nat, b: nat, c: nat)
    ensures ((a + b) % COUNT_LIMIT + c) % COUNT_LIMIT == (a + (b + c)) % COUNT_LIMIT
  {
  }
}
