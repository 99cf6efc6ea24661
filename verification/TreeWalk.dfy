/**
 Walking the tables: what the processor's page walk finds at a virtual page, how the kernel
 stores a mapping, and what storing one mapping changes in the tree.
*/
module TreeWalk {
  import opened Prelude
  import opened PageTree
  import opened PhysMems

  /** A virtual page as its table indices, top level first. */
  type Path = seq<nat>

  /** The mapping of a page, if the walk reaches one at the last level. */
  ghost function Lookup(t: Tree, path: Path): Option<Entry>
    decreases path
  {
    if path == [] || path[0] >= |t.slots| then None
    else
      match t.slots[path[0]]
      case Absent => None
      case Leaf(e, _) => if |path| == 1 then Some(e) else None
      case Sub(_, _, s) => Lookup(s, path[1..])
  }

  /** A large mapping bars the walk before the last level. */
  ghost predicate Large(t: Tree, path: Path)
    decreases path
  {
    path != [] && path[0] < |t.slots|
    && match t.slots[path[0]]
       case Absent => false
       case Leaf(_, _) => |path| > 1
       case Sub(_, _, s) => Large(s, path[1..])
  }

  datatype Access = Granted(frame: nat) | NotPresent | Denied

  /** The page within a large mapping that the rest of the path selects. */
  function Within(path: Path): nat
    decreases |path|
  {
    if path == [] then 0 else Within(path[..|path| - 1]) * ENTRIES + path[|path| - 1]
  }

  datatype Mode = UserMode | KernelMode

  /** The processor's decision: every level must allow the user, unless the kernel runs, and for a write allow writing. */
  function Mmu(tabs: Tables, table: nat, level: nat, path: Path, mode: Mode, write: bool, allowed: bool): Access
    requires level == |path| > 0
    decreases level
  {
    var e := EntryAt(tabs, table, path[0]);
    var ok := allowed && (mode.UserMode? ==> e.user) && (write ==> e.writable);
    if !e.present then NotPresent
    else if level == 1 || e.huge then (if ok then Granted(e.frame + Within(path[1..])) else Denied)
    else Mmu(tabs, e.frame, level - 1, path[1..], mode, write, ok)
  }

  /** The entries the processor reads on its way: each but the last points to the table of the next. */
  ghost predicate Walked(tabs: Tables, table: nat, path: Path, es: seq<Entry>) {
    && 1 <= |es| <= |path|
    && es[0] == EntryAt(tabs, table, path[0])
    && (forall i :: 0 < i < |es| ==> es[i] == EntryAt(tabs, es[i - 1].frame, path[i]))
    && (forall i :: 0 <= i < |es| - 1 ==> es[i].present && !es[i].huge)
    && (|es| == |path| || !es[|es| - 1].present || es[|es| - 1].huge)
  }

  /** No entry on the way forbids the access. */
  predicate Permits(es: seq<Entry>, mode: Mode, write: bool) {
    forall i :: 0 <= i < |es| ==> (mode == UserMode ==> es[i].user) && (write ==> es[i].writable)
  }

  /** The decision in terms of the entries read: a fault if one is absent or forbids it, else the page the last one maps. */
  lemma {:induction false} MmuOutright(tabs: Tables, table: nat, level: nat, path: Path, mode: Mode, write: bool, allowed: bool, es: seq<Entry>)
    requires level == |path| > 0 && Walked(tabs, table, path, es)
    ensures var last := es[|es| - 1];
      Mmu(tabs, table, level, path, mode, write, allowed) ==
      if !last.present then NotPresent
      else if allowed && Permits(es, mode, write) then Granted(last.frame + Within(path[|es|..]))
      else Denied
    decreases level
  {
    if |es| > 1 {
      var ok := allowed && (mode == UserMode ==> es[0].user) && (write ==> es[0].writable);
      WalkedOn(tabs, table, path, es);
      MmuOutright(tabs, es[0].frame, level - 1, path[1..], mode, write, ok, es[1..]);
      PermitsOn(es, mode, write);
      assert path[1..][|es| - 1..] == path[|es|..];
    }
  }

  lemma WalkedOn(tabs: Tables, table: nat, path: Path, es: seq<Entry>)
    requires |path| > 1 && |es| > 1 && Walked(tabs, table, path, es)
    ensures Walked(tabs, es[0].frame, path[1..], es[1..]) && es[0].present && !es[0].huge
  {
    var rest := es[1..];
    assert forall i :: 0 < i < |rest| ==> rest[i] == es[i + 1] && rest[i - 1] == es[i];
  }

  lemma PermitsOn(es: seq<Entry>, mode: Mode, write: bool)
    requires es != []
    ensures Permits(es, mode, write) <==> (mode == UserMode ==> es[0].user) && (write ==> es[0].writable) && Permits(es[1..], mode, write)
  {
    var rest := es[1..];
    assert forall i :: 0 <= i < |rest| ==> rest[i] == es[i + 1];
    assert es == [es[0]] + rest;
  }

  /** The small page that the rest of a path selects in a mapping of 2 MiB, 1 GiB or 512 GiB. */
  lemma WithinOutright(a: nat, b: nat, c: nat)
    ensures Within([]) == 0 && Within([c]) == c && Within([b, c]) == 512 * b + c && Within([a, b, c]) == 0x4_0000 * a + 512 * b + c
  {
    assert [a, b, c][..2] == [a, b] && [a, b][..1] == [a] && [b, c][..1] == [b];
    assert [a][..0] == [] && [b][..0] == [] && [c][..0] == [];
    assert Within([a]) == a && Within([b]) == b;
    assert Within([a, b]) == 512 * a + b;
    assert Within([a, b, c]) == Within([a, b]) * 512 + c;
  }

  /** What a program is granted the kernel is granted too. */
  lemma {:induction false} KernelIsGranted(tabs: Tables, table: nat, level: nat, path: Path, write: bool, allowed: bool, more: bool)
    requires level == |path| > 0 && (allowed ==> more)
    requires Mmu(tabs, table, level, path, UserMode, write, allowed).Granted?
    ensures Mmu(tabs, table, level, path, KernelMode, write, more) == Mmu(tabs, table, level, path, UserMode, write, allowed)
    decreases level
  {
    var e := EntryAt(tabs, table, path[0]);
    if level > 1 && !e.huge {
      var writes := write ==> e.writable;
      KernelIsGranted(tabs, e.frame, level - 1, path[1..], write, allowed && e.user && writes, more && writes);
    }
  }

  /** The last-level table the walk reaches, if all upper entries point to tables. */
  function LeafTable(tabs: Tables, table: nat, level: nat, path: Path): Option<nat>
    requires level == |path| > 0
    decreases level
  {
    if level == 1 then Some(table)
    else
      var e := EntryAt(tabs, table, path[0]);
      if !e.present || e.huge then None else LeafTable(tabs, e.frame, level - 1, path[1..])
  }

  /** Mappings of the user half are small pages open to the user, below open tables. */
  ghost predicate UserShape(t: Tree)
    decreases t
  {
    forall i :: 0 <= i < |t.slots| ==> SlotShape(t.slots[i])
  }

  ghost predicate SlotShape(s: Slot)
    decreases s
  {
    match s
    case Absent => true
    case Leaf(e, user) => user ==> UserEntry(e)
    case Sub(e, user, t) => (user ==> e.writable && e.user) && UserShape(t)
  }

  /** The top table in addition has no large mapping in its lower half. */
  ghost predicate Shape(t: Tree, level: nat) {
    UserShape(t) && (level == TOP_LEVEL ==> forall i :: 0 <= i < USER_HALF && i < |t.slots| ==> !t.slots[i].Leaf?)
  }

  predicate UserEntry(e: Entry) { e.present && e.user && !e.huge }

  /** A valid path at this level. */
  predicate WalkPath(path: Path, level: nat) {
    && |path| == level && 1 <= level <= TOP_LEVEL
    && (forall j :: 0 <= j < |path| ==> path[j] < ENTRIES)
  }

  /** A valid path inside the user half. */
  predicate UserPath(path: Path, level: nat, user: bool) {
    WalkPath(path, level) && SubUser(level, path[0], user)
  }

  /** Below a user path everything is in the user half. */
  lemma UserPathDown(path: Path, level: nat, user: bool)
    requires UserPath(path, level, user) && level > 1
    ensures UserPath(path[1..], level - 1, SubUser(level, path[0], user))
  {
  }

  /** What a last-level entry adds to the counts; entries outside the user half add nothing. */
  ghost function Holds(user: bool, e: Option<Entry>, k: Kind, f: nat): nat {
    if user && e.Some? && e.value.frame == f && (k == UserMaps || (k == WritableMaps && e.value.writable)) then 1 else 0
  }

  /** From `s` to `t` nothing changes but the mapping at `path`, which is in the user half or not. */
  ghost predicate MappingChanged(user: bool, s: Tree, t: Tree, path: Path, was: Option<Entry>, now: Option<Entry>) {
    && Lookup(s, path) == was && Lookup(t, path) == now
    && (forall q: Path :: |q| == |path| && q != path ==> Lookup(t, q) == Lookup(s, q))
    && (forall q: Path :: |q| == |path| ==> Large(t, q) == Large(s, q))
    && (forall k: Kind, f: nat :: k != TableFrames ==> Count(k, t, f) + Holds(user, was, k, f) == Count(k, s, f) + Holds(user, now, k, f))
    && (Shape(s, |path|) && (user && now.Some? ==> UserEntry(now.value)) ==> Shape(t, |path|))
  }

  lemma MappingChangedTwice(user: bool, s: Tree, t: Tree, u: Tree, path: Path, was: Option<Entry>, mid: Option<Entry>, now: Option<Entry>)
    requires MappingChanged(user, s, t, path, was, mid) && MappingChanged(user, t, u, path, mid, now)
    requires user && mid.Some? ==> UserEntry(mid.value)
    ensures MappingChanged(user, s, u, path, was, now)
  {
    forall q: Path | |q| == |path| && q != path
      ensures Lookup(u, q) == Lookup(s, q)
    {
      assert Lookup(t, q) == Lookup(s, q);
    }
    forall q: Path | |q| == |path|
      ensures Large(u, q) == Large(s, q)
    {
      assert Large(t, q) == Large(s, q);
    }
    forall k: Kind, f: nat | k != TableFrames
      ensures Count(k, u, f) + Holds(user, was, k, f) == Count(k, s, f) + Holds(user, now, k, f)
    {
      assert Count(k, t, f) + Holds(user, was, k, f) == Count(k, s, f) + Holds(user, mid, k, f);
      assert Count(k, u, f) + Holds(user, mid, k, f) == Count(k, t, f) + Holds(user, now, k, f);
    }
  }

  /** A change inside one subtree is a change of the whole tree. */
  lemma MappingChangedUp(user: bool, s: Tree, t: Tree, path: Path, was: Option<Entry>, now: Option<Entry>, e: Entry, t1: Tree)
    requires 1 < |path| <= TOP_LEVEL && path[0] < |s.slots|
    requires s.slots[path[0]].Sub? && s.slots[path[0]].user == user
    requires t == Tree(s.frame, s.slots[path[0] := Sub(e, user, t1)])
    requires MappingChanged(user, s.slots[path[0]].tree, t1, path[1..], was, now)
    requires user ==> e.writable && e.user
    ensures MappingChanged(user, s, t, path, was, now)
  {
    var i := path[0];
    var s1 := s.slots[i].tree;
    forall q: Path | |q| == |path| && q != path
      ensures Lookup(t, q) == Lookup(s, q)
    {
      if q[0] == i {
        assert q == [i] + q[1..] && path == [i] + path[1..];
        assert q[1..] != path[1..];
        assert Lookup(t1, q[1..]) == Lookup(s1, q[1..]);
      }
    }
    forall q: Path | |q| == |path|
      ensures Large(t, q) == Large(s, q)
    {
      assert q[0] == i ==> Large(t1, q[1..]) == Large(s1, q[1..]);
    }
    forall k: Kind, f: nat | k != TableFrames
      ensures Count(k, t, f) + Holds(user, was, k, f) == Count(k, s, f) + Holds(user, now, k, f)
    {
      CountReplace(k, s, t, i, f);
      assert Count(k, t1, f) + Holds(user, was, k, f) == Count(k, s1, f) + Holds(user, now, k, f);
    }
    if Shape(s, |path|) && (user && now.Some? ==> UserEntry(now.value)) {
      assert SlotShape(s.slots[i]);
      forall j | 0 <= j < |t.slots|
        ensures SlotShape(t.slots[j])
      {
        assert SlotShape(s.slots[j]);
      }
    }
  }

  /** Storing a last-level entry changes the one mapping. */
  lemma MappingChangedHere(user: bool, s: Tree, t: Tree, i: nat, was: Option<Entry>, now: Option<Entry>)
    requires i < |s.slots|
    requires s.slots[i] == if was.Some? then Leaf(was.value, user) else Absent
    requires t == Tree(s.frame, s.slots[i := if now.Some? then Leaf(now.value, user) else Absent])
    ensures MappingChanged(user, s, t, [i], was, now)
    ensures forall f: nat :: Count(TableFrames, t, f) == Count(TableFrames, s, f)
  {
    forall q: Path | |q| == 1 && q != [i]
      ensures Lookup(t, q) == Lookup(s, q)
    {
      assert q == [q[0]];
    }
    forall k: Kind, f: nat
      ensures Count(k, t, f) + Holds(user, was, k, f) == Count(k, s, f) + Holds(user, now, k, f)
    {
      CountReplace(k, s, t, i, f);
    }
    if Shape(s, 1) && (user && now.Some? ==> UserEntry(now.value)) {
      forall j | 0 <= j < |t.slots|
        ensures SlotShape(t.slots[j])
      {
        assert SlotShape(s.slots[j]);
      }
    }
  }

  /** In the user half the walk of the processor and `Lookup` agree. */
  lemma {:induction false} MmuIsLookup(tabs: Tables, table: nat, level: nat, user: bool, path: Path, mode: Mode, write: bool)
    requires UserPath(path, level, user)
    requires Shape(ReadTree(tabs, table, level, user), level)
    ensures Mmu(tabs, table, level, path, mode, write, true) ==
      match Lookup(ReadTree(tabs, table, level, user), path)
      case None => NotPresent
      case Some(e) => if write && !e.writable then Denied else Granted(e.frame)
    ensures var l, lt := Lookup(ReadTree(tabs, table, level, user), path), LeafTable(tabs, table, level, path);
      l.Some? ==> UserEntry(l.value) && lt.Some? && EntryAt(tabs, lt.value, path[level - 1]) == l.value
    decreases level
  {
    var t := ReadTree(tabs, table, level, user);
    var e := EntryAt(tabs, table, path[0]);
    assert t.slots[path[0]] == SlotOf(tabs, e, path[0], level, user);
    assert SlotShape(t.slots[path[0]]);
    if e.present && level > 1 && !e.huge {
      var su := SubUser(level, path[0], user);
      assert su;
      UserPathDown(path, level, user);
      MmuIsLookup(tabs, e.frame, level - 1, su, path[1..], mode, write);
      assert path[1..][level - 2] == path[level - 1];
    }
  }

  /** The tables differ in one entry at most, which became `e`. */
  ghost predicate StoredAt(a: Tables, b: Tables, table: nat, i: nat, e: Entry) {
    && (forall f: nat :: f != table ==> SameTable(a, b, f))
    && (forall j: nat :: j < ENTRIES && j != i ==> EntryAt(b, table, j) == EntryAt(a, table, j))
    && EntryAt(b, table, i) == e
  }

  /** Storing into the last-level table of a path: exactly that mapping changes. */
  lemma {:induction false} StoreAtLeaf(a: Tables, b: Tables, table: nat, level: nat, user: bool, path: Path, was: Option<Entry>, e: Entry)
    requires WalkPath(path, level)
    requires forall f: nat :: Count(TableFrames, ReadTree(a, table, level, user), f) <= 1
    requires Shape(ReadTree(a, table, level, user), level)
    requires LeafTable(a, table, level, path).Some?
    requires StoredAt(a, b, LeafTable(a, table, level, path).value, path[level - 1], e)
    requires was == Lookup(ReadTree(a, table, level, user), path)
    ensures MappingChanged(SubUser(level, path[0], user), ReadTree(a, table, level, user), ReadTree(b, table, level, user),
      path, was, if e.present then Some(e) else None)
    ensures forall f: nat :: Count(TableFrames, ReadTree(b, table, level, user), f) == Count(TableFrames, ReadTree(a, table, level, user), f)
    ensures Count(TableFrames, ReadTree(a, table, level, user), LeafTable(a, table, level, path).value) > 0
    decreases level
  {
    var s, t := ReadTree(a, table, level, user), ReadTree(b, table, level, user);
    var lt := LeafTable(a, table, level, path).value;
    var i := path[0];
    var now := if e.present then Some(e) else None;
    var ei := EntryAt(a, table, i);
    assert s.slots[i] == SlotOf(a, ei, i, level, user);
    if level == 1 {
      OneSlotChanges(a, b, table, i, level, user);
      assert path == [i];
      MappingChangedHere(user, s, t, i, was, now);
    } else {
      var sub, su := s.slots[i].tree, SubUser(level, i, user);
      assert path[1..][level - 2] == path[level - 1];
      forall f: nat
        ensures Count(TableFrames, s, f) >= Count(TableFrames, sub, f)
      {
        SlotWithin(TableFrames, s, i, f);
      }
      assert SlotShape(s.slots[i]);
      StoreAtLeaf(a, b, ei.frame, level - 1, su, path[1..], was, e);
      StoreBelow(a, b, table, level, user, path, was, now, ei, lt);
    }
  }

  /** What was stored below the first entry of the path, seen from the top. */
  lemma StoreBelow(a: Tables, b: Tables, table: nat, level: nat, user: bool, path: Path, was: Option<Entry>, now: Option<Entry>, ei: Entry, lt: nat)
    requires WalkPath(path, level) && level > 1 && ei == EntryAt(a, table, path[0]) && ei.present && !ei.huge
    requires forall f: nat :: Count(TableFrames, ReadTree(a, table, level, user), f) <= 1
    requires Shape(ReadTree(a, table, level, user), level)
    requires forall f: nat :: f != lt ==> SameTable(a, b, f)
    requires var su := SubUser(level, path[0], user);
      var sub, sub' := ReadTree(a, ei.frame, level - 1, su), ReadTree(b, ei.frame, level - 1, su);
      && MappingChanged(su, sub, sub', path[1..], was, now) && Count(TableFrames, sub, lt) > 0
      && forall f: nat :: Count(TableFrames, sub', f) == Count(TableFrames, sub, f)
    ensures MappingChanged(SubUser(level, path[0], user), ReadTree(a, table, level, user), ReadTree(b, table, level, user), path, was, now)
    ensures forall f: nat :: Count(TableFrames, ReadTree(b, table, level, user), f) == Count(TableFrames, ReadTree(a, table, level, user), f)
    ensures Count(TableFrames, ReadTree(a, table, level, user), lt) > 0
  {
    var s, t := ReadTree(a, table, level, user), ReadTree(b, table, level, user);
    var i, su := path[0], SubUser(level, path[0], user);
    var sub' := ReadTree(b, ei.frame, level - 1, su);
    assert s.slots[i] == SlotOf(a, ei, i, level, user);
    assert SlotShape(s.slots[i]);
    SlotWithin(TableFrames, s, i, lt);
    CountRoot(s, i);
    assert lt != table;
    assert SameTable(a, b, table);
    OneSlotChanges(a, b, table, i, level, user);
    assert t == Tree(table, s.slots[i := Sub(ei, su, sub')]);
    MappingChangedUp(su, s, t, path, was, now, ei, sub');
    forall f: nat
      ensures Count(TableFrames, t, f) == Count(TableFrames, s, f)
    {
      CountReplace(TableFrames, s, t, i, f);
    }
  }

  /** What the last-level table of a path holds is what the walk finds. */
  lemma {:induction false} LeafIsLookup(tabs: Tables, table: nat, level: nat, user: bool, path: Path)
    requires WalkPath(path, level)
    ensures var l, lt := Lookup(ReadTree(tabs, table, level, user), path), LeafTable(tabs, table, level, path);
      l == if lt.Some? && EntryAt(tabs, lt.value, path[level - 1]).present then Some(EntryAt(tabs, lt.value, path[level - 1])) else None
    decreases level
  {
    var e := EntryAt(tabs, table, path[0]);
    assert ReadTree(tabs, table, level, user).slots[path[0]] == SlotOf(tabs, e, path[0], level, user);
    if level > 1 && e.present && !e.huge {
      assert path[1..][level - 2] == path[level - 1];
      LeafIsLookup(tabs, e.frame, level - 1, SubUser(level, path[0], user), path[1..]);
    }
  }

  /** Wherever the walk reaches a last-level entry, the processor denies or grants that entry's frame. */
  lemma {:induction false} GrantIsLookup(tabs: Tables, table: nat, level: nat, user: bool, path: Path, mode: Mode, write: bool, allowed: bool)
    requires WalkPath(path, level)
    requires Lookup(ReadTree(tabs, table, level, user), path).Some?
    ensures var e, access := Lookup(ReadTree(tabs, table, level, user), path).value, Mmu(tabs, table, level, path, mode, write, allowed);
      access == Denied || (access == Granted(e.frame) && (write ==> e.writable))
    decreases level
  {
    var e := EntryAt(tabs, table, path[0]);
    assert ReadTree(tabs, table, level, user).slots[path[0]] == SlotOf(tabs, e, path[0], level, user);
    if level > 1 {
      GrantIsLookup(tabs, e.frame, level - 1, SubUser(level, path[0], user), path[1..], mode, write,
        allowed && (mode.UserMode? ==> e.user) && (write ==> e.writable));
    }
  }
}
