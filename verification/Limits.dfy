/**
 Inputs at which the limits of `Runs.WithinLimits` are reached: how many forks a frame survives,
 a process with a table above 4 GiB, and a page above the user half.
*/
module Limits {
  import opened Prelude
  import opened PageTree
  import opened PhysMems
  import opened TreeWalk
  import opened TableCopy
  import opened FrameBooks
  import opened ForkProof
  import opened EagerOs
  import opened Views
  import opened Runs

  // ---- the count: how many forks of one process fit ----

  /** Consecutive forks of process `p`. */
  ghost predicate ForkRun(states: seq<Os>, children: seq<nat>, p: nat) {
    && |states| == |children| + 1
    && forall i :: 0 <= i < |children| ==> Step(states[i], states[i + 1], Forked(p, children[i]))
  }

  /** How often a child of `p` maps frame `f`. */
  ghost function Share(a: Os, p: nat, f: nat): nat
    requires a.Live(p)
  {
    Count(UserMaps, ReachedTree(a.TreeOf(p)), f)
  }

  /** Protecting a tree moves nothing out of reach. */
  lemma {:induction false} ReachedProtected(s: Slot, f: nat)
    ensures SlotCount(UserMaps, Reached(Protect(s, true)), f) == SlotCount(UserMaps, Reached(s), f)
    decreases s, 1
  {
    if s.Sub? && !TooHigh(s.e) {
      ReachedTreeProtected(s.tree, f);
    }
  }

  lemma {:induction false} ReachedTreeProtected(t: Tree, f: nat)
    ensures Count(UserMaps, ReachedTree(ProtectTree(t, true)), f) == Count(UserMaps, ReachedTree(t), f)
    decreases t, 1
  {
    var x, y := ReachedTree(ProtectTree(t, true)).slots, ReachedTree(t).slots;
    forall i | 0 <= i < |t.slots|
      ensures SlotCount(UserMaps, x[i], f) == SlotCount(UserMaps, y[i], f)
    {
      ReachedProtected(t.slots[i], f);
    }
    SlotsPointwise(UserMaps, x, y, f);
  }

  /** One fork adds the share to the count, modulo 256, and leaves the share as it is. */
  lemma ForkAdds(a: Os, b: Os, held: Held, p: nat, child: nat)
    requires a.Inv(held) && Step(a, b, Forked(p, child))
    ensures a.Live(p) && b.Live(p) && (b.Inv(held) <==> ForkFits(a, p))
    ensures forall f: nat :: Share(b, p, f) == Share(a, p, f)
    ensures forall f: nat :: b.m.Refs(f) == (a.m.Refs(f) + Share(a, p, f)) % COUNT_LIMIT
  {
    var dest: nat :| ForkStep(a, b, p, child, dest);
    ForkKeepsBooks(a, b, held, p, child, dest);
    ForkTrees(a, b, held, p, child, dest);
    forall f: nat
      ensures Share(b, p, f) == Share(a, p, f)
      ensures b.m.Refs(f) == (a.m.Refs(f) + Share(a, p, f)) % COUNT_LIMIT
    {
      ForkAddsAt(a, b, held, p, child, dest, f);
    }
  }

  lemma ForkAddsAt(a: Os, b: Os, held: Held, p: nat, child: nat, dest: nat, f: nat)
    requires a.Inv(held) && ForkStep(a, b, p, child, dest) && b.Live(p)
    ensures Share(b, p, f) == Share(a, p, f)
    ensures b.m.Refs(f) == (a.m.Refs(f) + Share(a, p, f)) % COUNT_LIMIT
  {
    assert Share(b, p, f) == Share(a, p, f) by {
      ForkTrees(a, b, held, p, child, dest);
      ReachedTreeProtected(a.TreeOf(p), f);
    }
    ForkNumbers(a, b, held, p, child, dest, f);
    assert a.FrameInv(f, held);
  }

  ghost predicate ForksFit(a: Os, p: nat, n: nat)
    requires a.Live(p)
  {
    forall f: nat :: a.m.Refs(f) + n * Share(a, p, f) < COUNT_LIMIT
  }

  ghost predicate AllKept(states: seq<Os>, held: Held) { forall i :: 0 <= i < |states| ==> states[i].Inv(held) }

  lemma KeptFromFirst(states: seq<Os>, held: Held)
    requires states != [] && states[0].Inv(held)
    ensures AllKept(states, held) <==> AllKept(states[1..], held)
  {
    assert forall i :: 1 <= i < |states| ==> states[i] == states[1..][i - 1];
  }

  lemma ForkRunTail(states: seq<Os>, children: seq<nat>, p: nat)
    requires ForkRun(states, children, p) && children != []
    ensures ForkRun(states[1..], children[1..], p)
  {
    forall i | 0 <= i < |children| - 1
      ensures Step(states[1..][i], states[1..][i + 1], Forked(p, children[1..][i]))
    {
      assert Step(states[i + 1], states[i + 2], Forked(p, children[i + 1]));
    }
  }

  /**
   A run of `n` forks of one process keeps the books to its end if and only if no frame of the
   process gets to 256 by them; each fork adds the same share.
  */
  lemma {:induction false} ForkRunExact(states: seq<Os>, children: seq<nat>, held: Held, p: nat)
    requires ForkRun(states, children, p) && states[0].Inv(held) && states[0].Live(p)
    ensures AllKept(states, held) <==> ForksFit(states[0], p, |children|)
    ensures ForksFit(states[0], p, |children|) ==> forall f: nat ::
      states[|children|].m.Refs(f) == states[0].m.Refs(f) + |children| * Share(states[0], p, f)
    decreases |children|
  {
    var n := |children|;
    if n > 0 {
      var a, b := states[0], states[1];
      ForkAdds(a, b, held, p, children[0]);
      if ForkFits(a, p) {
        ForkRunTail(states, children, p);
        ForkRunExact(states[1..], children[1..], held, p);
        assert forall f: nat :: b.m.Refs(f) == a.m.Refs(f) + Share(a, p, f);
        OneForkMore(a, b, p, n);
        KeptFromFirst(states, held);
        assert states[n] == states[1..][n - 1];
        AddUp(a, b, states[n], p, n);
      } else {
        assert !states[1].Inv(held);
        NeverFits(a, p, n);
      }
    }
  }

  lemma AddUp(a: Os, b: Os, c: Os, p: nat, n: nat)
    requires a.Live(p) && b.Live(p) && n > 0
    requires forall f: nat :: b.m.Refs(f) == a.m.Refs(f) + Share(a, p, f) && Share(b, p, f) == Share(a, p, f)
    ensures (forall f: nat :: c.m.Refs(f) == b.m.Refs(f) + (n - 1) * Share(b, p, f)) ==>
      forall f: nat :: c.m.Refs(f) == a.m.Refs(f) + n * Share(a, p, f)
  {
    forall f: nat
      ensures a.m.Refs(f) + n * Share(a, p, f) == b.m.Refs(f) + (n - 1) * Share(b, p, f)
    {
      Product(n, Share(a, p, f));
    }
  }

  lemma NeverFits(a: Os, p: nat, n: nat)
    requires a.Live(p) && n > 0 && !ForkFits(a, p)
    ensures !ForksFit(a, p, n)
  {
    forall f: nat
      ensures n * Share(a, p, f) >= Share(a, p, f)
    {
      Product(n, Share(a, p, f));
    }
  }

  lemma Product(n: nat, c: nat)
    requires n > 0
    ensures n * c == (n - 1) * c + c && (n - 1) * c >= 0
  {
  }

  lemma OneForkMore(a: Os, b: Os, p: nat, n: nat)
    requires a.Live(p) && b.Live(p) && n > 0
    requires forall f: nat :: b.m.Refs(f) == a.m.Refs(f) + Share(a, p, f) && Share(b, p, f) == Share(a, p, f)
    ensures ForksFit(a, p, n) <==> ForksFit(b, p, n - 1)
  {
    forall f: nat
      ensures a.m.Refs(f) + n * Share(a, p, f) == b.m.Refs(f) + (n - 1) * Share(b, p, f)
    {
      Product(n, Share(a, p, f));
    }
  }

  /** The 255th fork of a process in a row makes the count of a page that it maps once read zero. */
  lemma FatalFork(states: seq<Os>, children: seq<nat>, held: Held, p: nat, f: nat)
    requires ForkRun(states, children, p) && |children| == 255 && states[0].Inv(held) && states[0].Live(p)
    requires states[0].m.Refs(f) == 1 && forall g: nat :: Share(states[0], p, g) <= 1 && states[0].m.Refs(g) <= 1
    requires Share(states[0], p, f) == 1
    ensures states[254].Inv(held) && states[254].m.Refs(f) == 255
    ensures states[255].m.Refs(f) == 0 && !states[255].Inv(held)
  {
    var before, some := states[..255], children[..254];
    assert ForkRun(before, some, p) by {
      forall i | 0 <= i < |some|
        ensures Step(before[i], before[i + 1], Forked(p, some[i]))
      {
        assert Step(states[i], states[i + 1], Forked(p, children[i]));
      }
    }
    forall g: nat
      ensures states[0].m.Refs(g) + 254 * Share(states[0], p, g) < COUNT_LIMIT
    {
      var c := Share(states[0], p, g);
      assert c == 0 || c == 1;
    }
    ForkRunExact(before, some, held, p);
    ShareStays(before, some, held, p, f);
    assert states[254] == before[254];
    assert Step(states[254], states[255], Forked(p, children[254]));
    ForkAdds(states[254], states[255], held, p, children[254]);
    assert !ForkFits(states[254], p);
  }

  lemma {:induction false} ShareStays(states: seq<Os>, children: seq<nat>, held: Held, p: nat, f: nat)
    requires ForkRun(states, children, p) && states[0].Live(p) && forall i :: 0 <= i < |states| ==> states[i].Inv(held)
    ensures states[|children|].Live(p) && Share(states[|children|], p, f) == Share(states[0], p, f)
    decreases |children|
  {
    if children != [] {
      var n := |children| - 1;
      forall i | 0 <= i < n
        ensures Step(states[..n + 1][i], states[..n + 1][i + 1], Forked(p, children[..n][i]))
      {
        assert Step(states[i], states[i + 1], Forked(p, children[i]));
      }
      ShareStays(states[..n + 1], children[..n], held, p, f);
      assert states[..n + 1][n] == states[n];
      assert Step(states[n], states[n + 1], Forked(p, children[n]));
      ForkAdds(states[n], states[n + 1], held, p, children[n]);
    }
  }

  // ---- a page above the user half ----

  /**
   Fork shares a page above the user half without counting it and without protecting it: both
   processes keep writing the same frame.
  */
  lemma UpperPageShared(a: Os, b: Os, held: Held, p: nat, child: nat, vp: nat)
    requires a.Inv(held) && Step(a, b, Forked(p, child)) && vp >= USER_PAGES && CanonicalPage(vp)
    requires WritableAt(a, p, vp) && Maps(ReachedTree(a.TreeOf(p)), vp) && LeafFrame(a, p, vp) in held
    ensures WritableAt(b, p, vp) && WritableAt(b, child, vp)
    ensures LeafFrame(b, p, vp) == LeafFrame(b, child, vp) == LeafFrame(a, p, vp)
    ensures b.m.Refs(LeafFrame(a, p, vp)) == a.m.Refs(LeafFrame(a, p, vp))
  {
    var dest: nat :| ForkStep(a, b, p, child, dest);
    UpperEntries(a, b, held, p, child, dest, vp);
    HeldCount(a, b, held, p, child, dest, LeafFrame(a, p, vp));
  }

  lemma UpperEntries(a: Os, b: Os, held: Held, p: nat, child: nat, dest: nat, vp: nat)
    requires a.Inv(held) && ForkStep(a, b, p, child, dest) && vp >= USER_PAGES && CanonicalPage(vp)
    requires Maps(ReachedTree(a.TreeOf(p)), vp)
    ensures b.Live(p) && b.Live(child)
    ensures var e := Lookup(a.TreeOf(p), PathOf(vp));
      e.Some? && Lookup(b.TreeOf(p), PathOf(vp)) == e && Lookup(b.TreeOf(child), PathOf(vp)) == Some(e.value.(user := true))
  {
    ForkTrees(a, b, held, p, child, dest);
    CopiedEntry(a.m.tabs, a.tasks[p].value.root, TOP_LEVEL, false, PathOf(vp), b.TreeOf(child));
  }

  lemma HeldCount(a: Os, b: Os, held: Held, p: nat, child: nat, dest: nat, f: nat)
    requires a.Inv(held) && ForkStep(a, b, p, child, dest) && f in held
    ensures b.m.Refs(f) == a.m.Refs(f)
  {
    ForkNumbers(a, b, held, p, child, dest, f);
    assert a.FrameInv(f, held);
  }

  // ---- a store above the user half ----

  /**
   Every process can store through the kernel's own mappings: what the parent's tables let the
   kernel write above the user half, large mappings included, the child may write.
  */
  lemma ChildWritesUpper(a: Os, b: Os, held: Held, p: nat, child: nat, va: nat)
    requires a.Inv(held) && Step(a, b, Forked(p, child)) && Canonical(va) && va >= USER_BYTES
    requires KernelWritable(a.m.tabs, a.tasks[p].value.root, TOP_LEVEL, PathOf(va / PAGE_BYTES)).Some?
    ensures b.Live(child)
    ensures Granting(b, child, va, UserMode, true)
      == Granted(KernelWritable(a.m.tabs, a.tasks[p].value.root, TOP_LEVEL, PathOf(va / PAGE_BYTES)).value)
  {
    var dest: nat :| ForkStep(a, b, p, child, dest);
    ForkTrees(a, b, held, p, child, dest);
    CopyOpensUpper(a.m.tabs, a.tasks[p].value.root, b.m.tabs, dest, TOP_LEVEL, false, PathOf(va / PAGE_BYTES), true);
  }

  /** A store into the root table of a process that makes a large mapping of a lower entry breaks the books. */
  lemma TableStoreBreaks(a: Os, b: Os, held: Held, more: Held, p: nat, q: nat, va: nat, b8: u8)
    requires a.Inv(held) && Step(a, b, Stored(p, va, b8)) && a.Live(q)
    requires StoreFrame(a, p, va) == Some(a.tasks[q].value.root) && va % PAGE_BYTES / ENTRY_BYTES < USER_HALF
    requires var e := EntryAt(b.m.tabs, a.tasks[q].value.root, va % PAGE_BYTES / ENTRY_BYTES); e.present && e.huge
    ensures !b.Inv(more)
  {
    var i := va % PAGE_BYTES / ENTRY_BYTES;
    assert b.TreeOf(q).slots[i] == SlotOf(b.m.tabs, EntryAt(b.m.tabs, a.tasks[q].value.root, i), i, TOP_LEVEL, false);
    assert b.TreeOf(q).slots[i].Leaf?;
    assert !Shape(b.TreeOf(q), TOP_LEVEL);
  }

  // ---- a process with a table above 4 GiB ----

  const HIGH_FRAME: nat := 0x10_0001

  function UserTable(frame: nat): Entry { Entry(true, true, true, false, 0, frame) }

  /** A table whose only entry, the first, leads to `next`. */
  function OneEntry(next: nat): (t: seq<Entry>)
    ensures |t| == ENTRIES && t[0] == UserTable(next) && forall i :: 0 < i < ENTRIES ==> t[i] == UNUSED
  {
    seq(ENTRIES, i requires 0 <= i < ENTRIES => if i == 0 then UserTable(next) else UNUSED)
  }

  /** Frame 1 is the root, 2 and 3 the next tables, `HIGH_FRAME` the last-level table, and 4 holds page 0. */
  function NextFrame(f: nat): Option<nat> {
    if f == 1 then Some(2) else if f == 2 then Some(3) else if f == 3 then Some(HIGH_FRAME)
    else if f == HIGH_FRAME then Some(4) else None
  }

  function TableAt(f: nat): (t: seq<Entry>)
    ensures |t| == ENTRIES
    ensures forall i :: 0 <= i < ENTRIES ==> t[i] == if i == 0 && NextFrame(f).Some? then UserTable(NextFrame(f).value) else UNUSED
  {
    if NextFrame(f).Some? then OneEntry(NextFrame(f).value)
    else seq(ENTRIES, i requires 0 <= i < ENTRIES => UNUSED)
  }

  function HighFree(): (s: seq<bool>)
    ensures |s| == HIGH_FRAME + 1 && forall f :: 0 <= f < |s| ==> s[f] == (NextFrame(f).None? && f != 4)
  {
    seq(HIGH_FRAME + 1, f requires 0 <= f < HIGH_FRAME + 1 => NextFrame(f).None? && f != 4)
  }

  function HighRefs(): (s: seq<nat>)
    ensures |s| == HIGH_FRAME + 1 && forall f :: 0 <= f < |s| ==> s[f] == if f == 4 then 1 else 0
  {
    seq(HIGH_FRAME + 1, f requires 0 <= f < HIGH_FRAME + 1 => if f == 4 then 1 else 0)
  }

  function HighTabs(): (s: Tables)
    ensures |s| == HIGH_FRAME + 1 && forall f :: 0 <= f < |s| ==> s[f] == TableAt(f)
  {
    seq(HIGH_FRAME + 1, f requires 0 <= f < HIGH_FRAME + 1 => TableAt(f))
  }

  function HighData(): (s: seq<Page>)
    ensures |s| == HIGH_FRAME + 1 && forall f :: 0 <= f < |s| ==> s[f] == ZeroPage()
  {
    seq(HIGH_FRAME + 1, f requires 0 <= f < HIGH_FRAME + 1 => ZeroPage())
  }

  /** One process, whose page 0 lies behind a table in the first frame past 4 GiB. */
  function HighOs(): Os { Os(Mem(HighFree(), HighRefs(), HighTabs(), HighData(), 0), [Some(Task(1, 4096))]) }

  lemma HighEntry(f: nat, i: nat)
    requires i < ENTRIES
    ensures EntryAt(HighTabs(), f, i) == if i == 0 && NextFrame(f).Some? then UserTable(NextFrame(f).value) else UNUSED
  {
  }

  ghost predicate OneSlotOnly(t: Tree, s: Slot) {
    |t.slots| == ENTRIES && t.slots[0] == s && forall i :: 0 < i < ENTRIES ==> t.slots[i] == Absent
  }

  lemma OneEntrySlots(f: nat, level: nat, user: bool)
    ensures OneSlotOnly(ReadTree(HighTabs(), f, level, user), SlotOf(HighTabs(), EntryAt(HighTabs(), f, 0), 0, level, user))
    ensures EntryAt(HighTabs(), f, 0) == if NextFrame(f).Some? then UserTable(NextFrame(f).value) else UNUSED
  {
    var t := ReadTree(HighTabs(), f, level, user);
    HighEntry(f, 0);
    forall i: nat | 0 < i < ENTRIES
      ensures t.slots[i] == Absent
    {
      HighEntry(f, i);
      assert t.slots[i] == SlotOf(HighTabs(), UNUSED, i, level, user);
    }
  }

  /** The counts of a table with one entry. */
  lemma OneEntryCounts(t: Tree, s: Slot, k: Kind, g: nat)
    requires OneSlotOnly(t, s)
    ensures Count(k, t, g) == (if k == TableFrames && g == t.frame then 1 else 0) + SlotCount(k, s, g)
  {
    var empty := Tree(t.frame, t.slots[0 := Absent]);
    SlotsAllZero(k, empty.slots, g);
    CountReplace(k, t, empty, 0, g);
  }

  ghost predicate Chain(t3: Tree, t2: Tree, t1: Tree, t0: Tree) {
    && t0.frame == HIGH_FRAME && t1.frame == 3 && t2.frame == 2 && t3.frame == 1
    && OneSlotOnly(t0, Leaf(UserTable(4), true)) && OneSlotOnly(t1, Sub(UserTable(HIGH_FRAME), true, t0))
    && OneSlotOnly(t2, Sub(UserTable(3), true, t1)) && OneSlotOnly(t3, Sub(UserTable(2), true, t2))
  }

  lemma ChainCounts(t3: Tree, t2: Tree, t1: Tree, t0: Tree, k: Kind, g: nat)
    requires Chain(t3, t2, t1, t0)
    ensures Count(k, t3, g) == if k == TableFrames then (if NextFrame(g).Some? then 1 else 0) else if g == 4 then 1 else 0
  {
    OneEntryCounts(t0, Leaf(UserTable(4), true), k, g);
    OneEntryCounts(t1, Sub(UserTable(HIGH_FRAME), true, t0), k, g);
    OneEntryCounts(t2, Sub(UserTable(3), true, t1), k, g);
    OneEntryCounts(t3, Sub(UserTable(2), true, t2), k, g);
  }

  lemma ChainShape(t3: Tree, t2: Tree, t1: Tree, t0: Tree)
    requires Chain(t3, t2, t1, t0)
    ensures Shape(t3, TOP_LEVEL)
  {
    assert UserShape(t0);
    assert UserShape(t1);
    assert UserShape(t2);
  }

  lemma HighTree()
    ensures HighOs().Live(0)
    ensures var t := HighOs().TreeOf(0);
      && Shape(t, TOP_LEVEL) && Maps(t, 0) && !Maps(ReachedTree(t), 0)
      && (forall g: nat :: Count(TableFrames, t, g) == if NextFrame(g).Some? then 1 else 0)
      && (forall k: Kind, g: nat :: k != TableFrames ==> Count(k, t, g) == if g == 4 then 1 else 0)
  {
    var t0, t1, t2, t3 := HighTable(HIGH_FRAME, 1), HighTable(3, 2), HighTable(2, 3), HighOs().TreeOf(0);
    assert Chain(t3, t2, t1, t0) by { HighSlots(); }
    ChainShape(t3, t2, t1, t0);
    HighLookups(t3, t2, t1, t0);
    forall k: Kind, g: nat
      ensures Count(k, t3, g) == if k == TableFrames then (if NextFrame(g).Some? then 1 else 0) else if g == 4 then 1 else 0
    {
      ChainCounts(t3, t2, t1, t0, k, g);
    }
  }

  ghost function HighTable(f: nat, level: nat): Tree { ReadTree(HighTabs(), f, level, true) }

  /** The four tables of the process, each with one entry. */
  lemma HighSlots()
    ensures OneSlotOnly(HighTable(HIGH_FRAME, 1), Leaf(UserTable(4), true))
    ensures OneSlotOnly(HighTable(3, 2), Sub(UserTable(HIGH_FRAME), true, HighTable(HIGH_FRAME, 1)))
    ensures OneSlotOnly(HighTable(2, 3), Sub(UserTable(3), true, HighTable(3, 2)))
    ensures OneSlotOnly(ReadTree(HighTabs(), 1, 4, false), Sub(UserTable(2), true, HighTable(2, 3)))
  {
    OneEntrySlots(1, 4, false);
    OneEntrySlots(2, 3, true);
    OneEntrySlots(3, 2, true);
    OneEntrySlots(HIGH_FRAME, 1, true);
  }

  lemma HighLookups(t3: Tree, t2: Tree, t1: Tree, t0: Tree)
    requires Chain(t3, t2, t1, t0)
    ensures Maps(t3, 0) && !Maps(ReachedTree(t3), 0)
  {
    var path := PathOf(0);
    assert path == [0, 0, 0, 0] && path[1..] == [0, 0, 0] && path[1..][1..] == [0, 0] && path[1..][1..][1..] == [0];
    assert Lookup(t0, [0]) == Some(UserTable(4));
    assert Lookup(t1, [0, 0]) == Lookup(t0, [0]);
    assert Lookup(t2, [0, 0, 0]) == Lookup(t1, [0, 0]);
    assert Lookup(t3, path) == Lookup(t2, [0, 0, 0]);
    var r1, r2, r3 := ReachedTree(t1), ReachedTree(t2), ReachedTree(t3);
    assert TooHigh(UserTable(HIGH_FRAME)) && !TooHigh(UserTable(3)) && !TooHigh(UserTable(2));
    assert r1.slots[0] == Reached(t1.slots[0]) == Absent;
    assert r2.slots[0] == Reached(t2.slots[0]) == Sub(UserTable(3), true, r1);
    assert r3.slots[0] == Reached(t3.slots[0]) == Sub(UserTable(2), true, r2);
    assert Lookup(r1, [0, 0]) == None;
    assert Lookup(r2, [0, 0, 0]) == Lookup(r1, [0, 0]);
    assert Lookup(r3, path) == Lookup(r2, [0, 0, 0]);
  }

  /** The numbers of that state. */
  ghost predicate HighNumbers(a: Os) {
    && a.m.Sized() && |a.m.tabs| == HIGH_FRAME + 1 && |a.tasks| == 1 && a.Live(0)
    && (forall f: nat :: a.m.Free(f) <==> f <= HIGH_FRAME && NextFrame(f).None? && f != 4)
    && (forall f: nat :: a.m.Refs(f) == if f == 4 then 1 else 0)
    && (forall f: nat :: Count(TableFrames, a.TreeOf(0), f) == if NextFrame(f).Some? then 1 else 0)
    && (forall k: Kind, f: nat :: k != TableFrames ==> Count(k, a.TreeOf(0), f) == if f == 4 then 1 else 0)
  }

  lemma HighSized()
    ensures HighOs().m.Sized()
  {
  }

  lemma HighBits(f: nat)
    ensures HighOs().m.Free(f) <==> f <= HIGH_FRAME && NextFrame(f).None? && f != 4
    ensures HighOs().m.Refs(f) == if f == 4 then 1 else 0
  {
  }

  lemma HighOsNumbers()
    ensures HighNumbers(HighOs())
  {
    var a := HighOs();
    HighTree();
    HighSized();
    assert |a.m.tabs| == HIGH_FRAME + 1 && |a.tasks| == 1;
    forall f: nat
      ensures a.m.Free(f) <==> f <= HIGH_FRAME && NextFrame(f).None? && f != 4
      ensures a.m.Refs(f) == if f == 4 then 1 else 0
    {
      HighBits(f);
    }
  }

  lemma HighFrameInv(a: Os, f: nat)
    requires HighNumbers(a)
    ensures a.FrameInv(f, map[])
    ensures a.m.Refs(f) + Count(UserMaps, ReachedTree(a.TreeOf(0)), f) < COUNT_LIMIT
  {
    var t := a.TreeOf(0);
    assert a.Forest() == [Sub(UNUSED, false, t)];
    OneTaskTotal(TableFrames, t, f);
    OneTaskTotal(UserMaps, t, f);
    OneTaskTotal(WritableMaps, t, f);
    TreeProtectedOrReached(t, f);
  }

  lemma HighInv(a: Os)
    requires HighNumbers(a) && Shape(a.TreeOf(0), TOP_LEVEL)
    ensures a.Inv(map[]) && ForkFits(a, 0)
  {
    forall f: nat
      ensures a.FrameInv(f, map[])
      ensures a.m.Refs(f) + Count(UserMaps, ReachedTree(a.TreeOf(0)), f) < COUNT_LIMIT
    {
      HighFrameInv(a, f);
    }
  }

  /** A state with all frames accounted for in which fork is past the second limit, and within the first. */
  lemma HighTableState()
    ensures HighOs().Inv(map[]) && HighOs().Live(0)
    ensures ForkFits(HighOs(), 0) && !AllReached(HighOs(), 0)
  {
    HighOsNumbers();
    HighTree();
    HighInv(HighOs());
  }

  lemma OneTaskTotal(k: Kind, t: Tree, f: nat)
    ensures SlotsCount(k, [Sub(UNUSED, false, t)], f) == Count(k, t, f)
  {
    assert [Sub(UNUSED, false, t)][1..] == [];
  }

  /** Whatever fork of that process succeeds, the child lacks page 0. */
  lemma HighTableLosesPage(b: Os, child: nat)
    requires Step(HighOs(), b, Forked(0, child))
    ensures 0 in SpaceOf(HighOs(), 0).pages
    ensures b.Inv(map[]) && b.Live(child) && 0 !in SpaceOf(b, child).pages
  {
    HighTableState();
    HighTree();
    ForkSound(HighOs(), b, map[], 0, child);
    var dest: nat :| ForkStep(HighOs(), b, 0, child, dest);
    ForkFrames(HighOs(), b, map[], 0, child, dest);
  }
}
