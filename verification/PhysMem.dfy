/**
 One value for everything the memory code can change: the free bits, the reference counts,
 the page-table view and the byte view of every frame, and the number of double-free reports.
*/
module PhysMems {
  import opened Prelude
  import opened PageTree

  type Page = seq<u8>

  const PAGE_BYTES := 4096
  const COUNT_LIMIT := 256
  const HIGH_ADDRESS := 0x1_0000_0000

  const ZERO_TABLE: seq<Entry> := seq(ENTRIES, _ => UNUSED)

  function ZeroPage(): (p: Page)
    ensures |p| == PAGE_BYTES && forall i :: 0 <= i < |p| ==> p[i] == 0
  {
    seq(PAGE_BYTES, i requires 0 <= i < PAGE_BYTES => 0)
  }

  datatype Mem = Mem(free: seq<bool>, refs: seq<nat>, tabs: Tables, data: seq<Page>, warnings: nat) {

    predicate Free(f: nat) { f < |free| && free[f] }

    ghost predicate NoneFree() { forall f: nat :: !Free(f) }

    function Refs(f: nat): nat { if f < |refs| then refs[f] else 0 }

    /** The views agree on how many frames there are, and no bit past the last frame is set. */
    ghost predicate Sized() {
      && |refs| == |tabs| == |data| <= |free|
      && (forall f: nat :: Free(f) ==> f < |refs|)
      && (forall f :: 0 <= f < |tabs| ==> |tabs[f]| == ENTRIES)
      && (forall f :: 0 <= f < |data| ==> |data[f]| == PAGE_BYTES)
      && (forall f :: 0 <= f < |refs| ==> refs[f] < COUNT_LIMIT)
    }

    ghost predicate SameShape(m: Mem) {
      |free| == |m.free| && |refs| == |m.refs| && |tabs| == |m.tabs| && |data| == |m.data|
    }
  }

  /** The tables of `t` are real frames in use, and no frame serves twice. */
  ghost predicate OwnsTables(m: Mem, t: Tree) {
    forall f: nat :: Count(TableFrames, t, f) <= 1
      && (Count(TableFrames, t, f) > 0 ==> f < |m.tabs| && !m.Free(f))
  }

  ghost predicate MapsFrames(m: Mem, t: Tree) {
    forall f: nat :: Count(UserMaps, t, f) > 0 ==> f < |m.refs|
  }

  /** A slot of a tree is made of tables of that tree. */
  lemma SlotWithin(k: Kind, t: Tree, i: nat, f: nat)
    requires i < |t.slots|
    ensures Count(k, t, f) >= SlotCount(k, t.slots[i], f)
  {
    SlotsUpdate(k, t.slots, i, Absent, f);
  }

  /** When no frame serves twice, two slots share no table and no slot contains its own root. */
  lemma SlotsApart(t: Tree, i: nat, j: nat, f: nat)
    requires Count(TableFrames, t, f) <= 1
    requires i < |t.slots| && j < |t.slots| && i != j
    ensures SlotCount(TableFrames, t.slots[i], f) > 0 ==> SlotCount(TableFrames, t.slots[j], f) == 0 && t.frame != f
  {
    SlotsTwo(TableFrames, t.slots, i, j, f);
  }

  /** Two trees that differ in one slot: how the counts differ. */
  lemma CountReplace(k: Kind, t: Tree, t': Tree, i: nat, f: nat)
    requires i < |t.slots| == |t'.slots| && t'.frame == t.frame && t'.slots == t.slots[i := t'.slots[i]]
    ensures Count(k, t', f) == Count(k, t, f) - SlotCount(k, t.slots[i], f) + SlotCount(k, t'.slots[i], f)
  {
    SlotsUpdate(k, t.slots, i, t'.slots[i], f);
  }

  /**
   What changing one table entry, or anything below one entry, does to the tree above it:
   all other slots keep their value.  `i` is the entry, and every other table of the tree is
   the same in `b`.
  */
  lemma OneSlotChanges(a: Tables, b: Tables, f: nat, i: nat, level: nat, user: bool)
    requires i < ENTRIES
    requires var t := ReadTree(a, f, level, user);
      && (forall g: nat :: Count(TableFrames, t, g) <= 1)
      && (forall g: nat :: g != f && Count(TableFrames, t, g) > 0 && SlotCount(TableFrames, t.slots[i], g) == 0 ==> SameTable(a, b, g))
    requires forall j: nat :: j < ENTRIES && j != i ==> EntryAt(b, f, j) == EntryAt(a, f, j)
    ensures ReadTree(b, f, level, user)
         == Tree(f, ReadTree(a, f, level, user).slots[i := SlotAt(b, f, i, level, user)])
  {
    var t := ReadTree(a, f, level, user);
    forall j: nat | j < ENTRIES && j != i
      ensures SlotAt(b, f, j, level, user) == SlotAt(a, f, j, level, user)
    {
      OtherSlotSame(a, b, t, f, i, j, level, user);
    }
  }

  lemma OtherSlotSame(a: Tables, b: Tables, t: Tree, f: nat, i: nat, j: nat, level: nat, user: bool)
    requires t == ReadTree(a, f, level, user) && i < ENTRIES && j < ENTRIES && j != i
    requires forall g: nat :: Count(TableFrames, t, g) <= 1
    requires forall g: nat :: g != f && Count(TableFrames, t, g) > 0 && SlotCount(TableFrames, t.slots[i], g) == 0 ==> SameTable(a, b, g)
    requires EntryAt(b, f, j) == EntryAt(a, f, j)
    ensures SlotAt(b, f, j, level, user) == SlotAt(a, f, j, level, user)
  {
    assert t.slots[j] == SlotAt(a, f, j, level, user) == SlotOf(a, EntryAt(a, f, j), j, level, user);
    forall g: nat | SlotCount(TableFrames, t.slots[j], g) > 0
      ensures SameTable(a, b, g)
    {
      var once := Count(TableFrames, t, g);
      assert once <= 1;
      SlotsApart(t, j, i, g);
      SlotWithin(TableFrames, t, j, g);
    }
    SlotFrame(a, b, EntryAt(a, f, j), j, level, user);
  }

  /** A tree whose root serves once does not contain its root again. */
  lemma CountRoot(t: Tree, i: nat)
    requires Count(TableFrames, t, t.frame) <= 1 && i < |t.slots|
    ensures SlotCount(TableFrames, t.slots[i], t.frame) == 0
  {
    SlotsUpdate(TableFrames, t.slots, i, Absent, t.frame);
  }

  lemma SizedAfterTake(m: Mem, f: nat)
    requires m.Sized() && m.Free(f)
    ensures m.(free := m.free[f := false]).Sized()
    ensures forall g: nat :: m.(free := m.free[f := false]).Free(g) == (m.Free(g) && g != f)
  {
    var n := m.(free := m.free[f := false]);
    assert forall g: nat :: n.Free(g) == (m.Free(g) && g != f);
  }

  lemma SizedAfterReturn(m: Mem, f: nat, warnings: nat)
    requires m.Sized() && f < |m.refs|
    ensures m.(free := m.free[f := true], warnings := warnings).Sized()
    ensures forall g: nat :: m.(free := m.free[f := true], warnings := warnings).Free(g) == (m.Free(g) || g == f)
  {
    var n := m.(free := m.free[f := true], warnings := warnings);
    assert forall g: nat :: n.Free(g) == (m.Free(g) || g == f);
  }

  lemma SizedAfterStore(m: Mem, tabs: Tables)
    requires m.Sized() && |tabs| == |m.tabs| && forall f :: 0 <= f < |tabs| ==> |tabs[f]| == ENTRIES
    ensures m.(tabs := tabs).Sized()
  {
    assert forall g: nat :: m.(tabs := tabs).Free(g) == m.Free(g);
  }

  lemma SizedAfterCount(m: Mem, f: nat, n: nat)
    requires m.Sized() && f < |m.refs| && n < COUNT_LIMIT
    ensures m.(refs := m.refs[f := n]).Sized()
    ensures forall g: nat :: m.(refs := m.refs[f := n]).Refs(g) == if g == f then n else m.Refs(g)
  {
    var r := m.(refs := m.refs[f := n]);
    assert forall g: nat :: r.Free(g) == m.Free(g);
    assert forall g :: 0 <= g < |r.refs| ==> r.refs[g] == if g == f then n else m.refs[g];
    assert forall g: nat :: r.Refs(g) == if g == f then n else m.Refs(g);
  }

  lemma SizedAfterData(m: Mem, f: nat, page: Page)
    requires m.Sized() && f < |m.data| && |page| == PAGE_BYTES
    ensures m.(data := m.data[f := page]).Sized()
  {
    var r := m.(data := m.data[f := page]);
    assert forall g: nat :: r.Free(g) == m.Free(g);
    assert forall g :: 0 <= g < |r.data| ==> r.data[g] == if g == f then page else m.data[g];
  }
}
