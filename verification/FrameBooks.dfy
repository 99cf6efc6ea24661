/**
 The books of the whole system: all processes with their page tables, and the invariant that
 every physical frame is accounted for.
*/
module FrameBooks {
  import opened Prelude
  import opened PageTree
  import opened PhysMems
  import opened TreeWalk

  /** The part of `Process` that matters to memory. */
  datatype Task = Task(root: nat, brk: nat)

  /** Frames held outside the user halves (kernel, drivers), with the count each of them carries. */
  type Held = map<nat, nat>

  function Carried(held: Held, f: nat): nat { if f in held then held[f] else 0 }

  datatype Os = Os(m: Mem, tasks: seq<Option<Task>>) {

    predicate Live(p: nat) { p < |tasks| && tasks[p].Some? }

    ghost function TreeOf(p: nat): Tree
      requires Live(p)
    {
      ReadTree(m.tabs, tasks[p].value.root, TOP_LEVEL, false)
    }

    /** The trees of all processes, as the slots of one imaginary table. */
    ghost function Forest(): (ss: seq<Slot>)
      ensures |ss| == |tasks|
      ensures forall p: nat :: p < |tasks| ==> ss[p] == if tasks[p].Some? then Sub(UNUSED, false, TreeOf(p)) else Absent
    {
      seq(|tasks|, p requires 0 <= p < |tasks| => if tasks[p].Some? then Sub(UNUSED, false, TreeOf(p)) else Absent)
    }

    ghost function Total(k: Kind, f: nat): nat { SlotsCount(k, Forest(), f) }

    /**
     Every frame is in exactly one role: free with no reference, a table of one process,
     user data whose count is the number of mappings, or held outside the user halves.  A
     writable mapping is the only mapping of its frame.
    */
    ghost predicate Inv(held: Held) {
      && m.Sized()
      && (forall f: nat :: FrameInv(f, held))
      && (forall p: nat :: Live(p) ==> Shape(TreeOf(p), TOP_LEVEL))
    }

    ghost predicate FrameInv(f: nat, held: Held) {
      && Roles(f, held) == (if f < |m.tabs| then 1 else 0)
      && Total(TableFrames, f) <= 1
      && m.Refs(f) == Total(UserMaps, f) + Carried(held, f)
      && (Total(WritableMaps, f) > 0 ==> Total(UserMaps, f) == 1)
    }

    ghost function Roles(f: nat, held: Held): nat {
      (if m.Free(f) then 1 else 0)
      + (if Total(TableFrames, f) > 0 then 1 else 0)
      + (if Total(UserMaps, f) > 0 then 1 else 0)
      + (if f in held then 1 else 0)
    }
  }

  /** The share of one process in the books. */
  lemma TaskShare(os: Os, p: nat)
    requires os.Live(p)
    ensures forall k: Kind, f: nat :: Count(k, os.TreeOf(p), f) <= os.Total(k, f)
  {
    forall k: Kind, f: nat
      ensures Count(k, os.TreeOf(p), f) <= os.Total(k, f)
    {
      SlotsUpdate(k, os.Forest(), p, Absent, f);
    }
  }

  lemma TwoShares(os: Os, p: nat, q: nat)
    requires os.Live(p) && os.Live(q) && p != q
    ensures forall k: Kind, f: nat :: Count(k, os.TreeOf(p), f) + Count(k, os.TreeOf(q), f) <= os.Total(k, f)
  {
    forall k: Kind, f: nat
      ensures Count(k, os.TreeOf(p), f) + Count(k, os.TreeOf(q), f) <= os.Total(k, f)
    {
      SlotsTwo(k, os.Forest(), p, q, f);
    }
  }

  /** What the invariant says about the tree of one process. */
  lemma TreeInv(os: Os, held: Held, p: nat)
    requires os.Inv(held) && os.Live(p)
    ensures OwnsTables(os.m, os.TreeOf(p)) && MapsFrames(os.m, os.TreeOf(p)) && Shape(os.TreeOf(p), TOP_LEVEL)
    ensures forall f: nat :: Count(UserMaps, os.TreeOf(p), f) > 0 ==>
      Count(UserMaps, os.TreeOf(p), f) <= os.m.Refs(f) && !os.m.Free(f) && Count(TableFrames, os.TreeOf(p), f) == 0 && f < |os.m.tabs|
    ensures os.tasks[p].value.root < |os.m.tabs|
  {
    TaskShare(os, p);
    assert Count(TableFrames, os.TreeOf(p), os.tasks[p].value.root) > 0;
    forall f: nat
      ensures Count(TableFrames, os.TreeOf(p), f) <= 1
    {
      assert os.FrameInv(f, held);
    }
    forall f: nat | Count(TableFrames, os.TreeOf(p), f) > 0
      ensures f < |os.m.tabs| && !os.m.Free(f)
    {
      assert os.FrameInv(f, held);
      assert os.Total(TableFrames, f) > 0;
    }
    forall f: nat | Count(UserMaps, os.TreeOf(p), f) > 0
      ensures Count(UserMaps, os.TreeOf(p), f) <= os.m.Refs(f) && !os.m.Free(f) && Count(TableFrames, os.TreeOf(p), f) == 0 && f < |os.m.tabs|
    {
      assert os.FrameInv(f, held);
      assert os.Total(UserMaps, f) > 0;
    }
  }

  /** Tables of other processes, and tables that were not free, are untouched by work on process `p`. */
  ghost predicate OnlyTaskTables(a: Os, b: Os, p: nat) {
    a.Live(p) && forall f: nat :: Count(TableFrames, a.TreeOf(p), f) == 0 && !a.m.Free(f) ==> SameTable(a.m.tabs, b.m.tabs, f)
  }

  /** Work on the tables of one process leaves every other tree as it was. */
  lemma OtherTrees(a: Os, b: Os, held: Held, p: nat, q: nat)
    requires a.Inv(held) && OnlyTaskTables(a, b, p)
    requires a.Live(q) && q != p && b.Live(q) && b.tasks[q].value.root == a.tasks[q].value.root
    ensures b.TreeOf(q) == a.TreeOf(q)
  {
    TwoShares(a, p, q);
    TreeInv(a, held, q);
    forall f: nat | Count(TableFrames, a.TreeOf(q), f) > 0
      ensures SameTable(a.m.tabs, b.m.tabs, f)
    {
      assert a.FrameInv(f, held);
    }
    TreeFrame(a.m.tabs, b.m.tabs, a.tasks[q].value.root, TOP_LEVEL, false);
  }

  /** Only process `p` changed: the totals change by what its tree changed. */
  lemma OneTask(a: Os, b: Os, held: Held, p: nat)
    requires a.Inv(held) && OnlyTaskTables(a, b, p)
    requires |b.tasks| == |a.tasks|
    requires forall q: nat :: q < |a.tasks| && q != p ==> b.tasks[q] == a.tasks[q]
    ensures forall q: nat :: a.Live(q) && q != p ==> b.Live(q) && b.TreeOf(q) == a.TreeOf(q)
    ensures forall k: Kind, f: nat ::
      b.Total(k, f) == a.Total(k, f) - Count(k, a.TreeOf(p), f) + if b.Live(p) then Count(k, b.TreeOf(p), f) else 0
  {
    forall q: nat | a.Live(q) && q != p
      ensures b.Live(q) && b.TreeOf(q) == a.TreeOf(q)
    {
      OtherTrees(a, b, held, p, q);
    }
    var x := b.Forest()[p];
    assert b.Forest() == a.Forest()[p := x];
    forall k: Kind, f: nat
      ensures b.Total(k, f) == a.Total(k, f) - Count(k, a.TreeOf(p), f) + if b.Live(p) then Count(k, b.TreeOf(p), f) else 0
    {
      SlotsUpdate(k, a.Forest(), p, x, f);
    }
  }

  /** Slotwise a + b <= c gives the same for the sums; an empty `b` counts as zero. */
  lemma {:induction false} SumsBelow(ka: Kind, a: seq<Slot>, kb: Kind, b: seq<Slot>, kc: Kind, c: seq<Slot>, f: nat)
    requires |a| == |c| && (|b| == |c| || b == [])
    requires forall i :: 0 <= i < |c| ==>
      SlotCount(ka, a[i], f) + (if b == [] then 0 else SlotCount(kb, b[i], f)) <= SlotCount(kc, c[i], f)
    ensures SlotsCount(ka, a, f) + SlotsCount(kb, b, f) <= SlotsCount(kc, c, f)
  {
    if c != [] {
      assert forall i :: 0 <= i < |c| - 1 ==> a[1..][i] == a[i + 1] && c[1..][i] == c[i + 1];
      assert b != [] ==> forall i :: 0 <= i < |c| - 1 ==> b[1..][i] == b[i + 1];
      if b == [] || |b| > 1 {
        SumsBelow(ka, a[1..], kb, if b == [] then [] else b[1..], kc, c[1..], f);
      } else {
        assert a[1..] == [] && b[1..] == [] && c[1..] == [];
      }
    }
  }

  lemma {:induction false} WritableIsUser(t: Tree, f: nat)
    ensures Count(WritableMaps, t, f) <= Count(UserMaps, t, f)
    decreases t
  {
    forall i | 0 <= i < |t.slots|
      ensures SlotCount(WritableMaps, t.slots[i], f) <= SlotCount(UserMaps, t.slots[i], f)
    {
      if t.slots[i].Sub? {
        WritableIsUser(t.slots[i].tree, f);
      }
    }
    SumsBelow(WritableMaps, t.slots, WritableMaps, [], UserMaps, t.slots, f);
  }

  lemma WritableTotal(os: Os, f: nat)
    ensures os.Total(WritableMaps, f) <= os.Total(UserMaps, f)
  {
    var ss := os.Forest();
    forall i | 0 <= i < |ss|
      ensures SlotCount(WritableMaps, ss[i], f) <= SlotCount(UserMaps, ss[i], f)
    {
      if ss[i].Sub? {
        WritableIsUser(ss[i].tree, f);
      }
    }
    SumsBelow(WritableMaps, ss, WritableMaps, [], UserMaps, ss, f);
  }
}
