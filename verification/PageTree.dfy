/**
 The four-level x86-64 page tables, seen as trees.

 Physical memory holds tables as sequences of 512 entries, indexed by frame number.
 `ReadTree` unfolds the tables below one frame into a tree value.  Everything the kernel
 must count (table frames, user mappings, writable user mappings) is a sum over a tree.
*/
module PageTree {

  const ENTRIES := 512
  const USER_HALF := 256
  const TOP_LEVEL := 4

  /** One page-table entry.  `rest` stands for the flags the kernel only carries along. */
  datatype Entry = Entry(present: bool, writable: bool, user: bool, huge: bool, rest: nat, frame: nat)

  const UNUSED := Entry(false, false, false, false, 0, 0)

  type Tables = seq<seq<Entry>>

  /** What one entry leads to; `user` says whether the lower half of the top table leads here. */
  datatype Slot =
    | Absent
    | Leaf(e: Entry, user: bool)
    | Sub(e: Entry, user: bool, tree: Tree)

  datatype Tree = Tree(frame: nat, slots: seq<Slot>)

  function EntryAt(tabs: Tables, f: nat, i: nat): Entry {
    if f < |tabs| && i < |tabs[f]| then tabs[f][i] else UNUSED
  }

  /** The half a subtree belongs to is decided by the index in the top table. */
  function SubUser(level: nat, i: nat, user: bool): bool {
    if level == TOP_LEVEL then i < USER_HALF else user
  }

  ghost function SlotAt(tabs: Tables, f: nat, i: nat, level: nat, user: bool): Slot
    decreases level, 0
  {
    SlotOf(tabs, EntryAt(tabs, f, i), i, level, user)
  }

  ghost function SlotOf(tabs: Tables, e: Entry, i: nat, level: nat, user: bool): Slot
    decreases level, 0, 0
  {
    if !e.present then Absent
    else if level <= 1 || e.huge then Leaf(e, user)
    else Sub(e, SubUser(level, i, user), ReadTree(tabs, e.frame, level - 1, SubUser(level, i, user)))
  }

  ghost function ReadTree(tabs: Tables, f: nat, level: nat, user: bool): (t: Tree)
    ensures t.frame == f && |t.slots| == ENTRIES
    ensures forall i :: 0 <= i < ENTRIES ==> t.slots[i] == SlotAt(tabs, f, i, level, user)
    decreases level, 1
  {
    Tree(f, seq(ENTRIES, i requires 0 <= i < ENTRIES => SlotAt(tabs, f, i, level, user)))
  }

  /** What is being counted: table frames, user mappings, or writable user mappings. */
  datatype Kind = TableFrames | UserMaps | WritableMaps

  ghost function Count(k: Kind, t: Tree, f: nat): nat
    decreases t
  {
    (if k == TableFrames && t.frame == f then 1 else 0) + SlotsCount(k, t.slots, f)
  }

  ghost function SlotsCount(k: Kind, ss: seq<Slot>, f: nat): nat
    decreases ss
  {
    if ss == [] then 0 else SlotCount(k, ss[0], f) + SlotsCount(k, ss[1..], f)
  }

  ghost function SlotCount(k: Kind, s: Slot, f: nat): nat
    decreases s
  {
    match s
    case Absent => 0
    case Leaf(e, user) =>
      if user && e.frame == f && (k == UserMaps || (k == WritableMaps && e.writable)) then 1 else 0
    case Sub(_, _, t) => Count(k, t, f)
  }

  // ---- sums over slots ----

  lemma {:induction false} SlotsUpdate(k: Kind, ss: seq<Slot>, i: nat, s: Slot, f: nat)
    requires i < |ss|
    ensures SlotsCount(k, ss[i := s], f) == SlotsCount(k, ss, f) - SlotCount(k, ss[i], f) + SlotCount(k, s, f)
    ensures SlotsCount(k, ss, f) >= SlotCount(k, ss[i], f)
  {
    if i == 0 {
      assert ss[0 := s][1..] == ss[1..];
    } else {
      SlotsUpdate(k, ss[1..], i - 1, s, f);
      assert ss[i := s][1..] == ss[1..][i - 1 := s];
    }
  }

  lemma SlotsTwo(k: Kind, ss: seq<Slot>, i: nat, j: nat, f: nat)
    requires i < |ss| && j < |ss| && i != j
    ensures SlotsCount(k, ss, f) >= SlotCount(k, ss[i], f) + SlotCount(k, ss[j], f)
  {
    SlotsUpdate(k, ss, i, Absent, f);
    SlotsUpdate(k, ss[i := Absent], j, Absent, f);
  }

  lemma {:induction false} SlotsAllZero(k: Kind, ss: seq<Slot>, f: nat)
    requires forall i :: 0 <= i < |ss| ==> SlotCount(k, ss[i], f) == 0
    ensures SlotsCount(k, ss, f) == 0
  {
    if ss != [] {
      SlotsAllZero(k, ss[1..], f);
    }
  }

  // ---- the same tables read the same tree ----

  ghost predicate SameTable(a: Tables, b: Tables, f: nat) {
    forall i: nat :: i < ENTRIES ==> EntryAt(a, f, i) == EntryAt(b, f, i)
  }

  /** A tree depends on nothing but the tables it is made of. */
  lemma {:induction false} TreeFrame(a: Tables, b: Tables, f: nat, level: nat, user: bool)
    requires forall g: nat :: Count(TableFrames, ReadTree(a, f, level, user), g) > 0 ==> SameTable(a, b, g)
    ensures ReadTree(b, f, level, user) == ReadTree(a, f, level, user)
    decreases level, 1
  {
    var t := ReadTree(a, f, level, user);
    assert Count(TableFrames, t, f) > 0;
    forall i: nat | i < ENTRIES
      ensures SlotAt(b, f, i, level, user) == SlotAt(a, f, i, level, user)
    {
      assert EntryAt(a, f, i) == EntryAt(b, f, i);
      assert t.slots[i] == SlotAt(a, f, i, level, user);
      forall g: nat | SlotCount(TableFrames, t.slots[i], g) > 0
        ensures SameTable(a, b, g)
      {
        SlotsUpdate(TableFrames, t.slots, i, Absent, g);
      }
      SlotFrame(a, b, EntryAt(a, f, i), i, level, user);
    }
  }

  lemma {:induction false} SlotFrame(a: Tables, b: Tables, e: Entry, i: nat, level: nat, user: bool)
    requires forall g: nat :: SlotCount(TableFrames, SlotOf(a, e, i, level, user), g) > 0 ==> SameTable(a, b, g)
    ensures SlotOf(b, e, i, level, user) == SlotOf(a, e, i, level, user)
    decreases level, 0
  {
    if e.present && !(level <= 1 || e.huge) {
      TreeFrame(a, b, e.frame, level - 1, SubUser(level, i, user));
    }
  }
}
