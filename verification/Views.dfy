/**
 The memory a process sees through its page tables, and how kernel steps change it.
*/
module Views {
  import opened Prelude
  import opened PageTree
  import opened PhysMems
  import opened TreeWalk
  import opened FrameBooks
  import opened ForkProof
  import opened PageProof
  import opened TableCopy
  import opened EagerOs

  /** The table indices of a page; the sign-extended bits of its number select nothing. */
  function PathOf(vp: nat): (path: Path)
    ensures WalkPath(path, TOP_LEVEL)
    ensures CanonicalPage(vp) ==> (InHalf(path) <==> vp < USER_PAGES)
  {
    [vp / 0x800_0000 % ENTRIES, vp / 0x4_0000 % ENTRIES, vp / 0x200 % ENTRIES, vp % ENTRIES]
  }

  /** The four indices are the low 36 bits of the page number, nine bits each, the highest first. */
  lemma PathIsPage(vp: nat)
    ensures var path := PathOf(vp);
      && |path| == 4 && (forall i :: 0 <= i < 4 ==> path[i] < 512)
      && 0x800_0000 * path[0] + 0x4_0000 * path[1] + 0x200 * path[2] + path[3] == vp % 0x10_0000_0000
  {
    Digit(vp, 0x200);
    Digit(vp / 0x200, 0x200);
    assert vp / 0x200 / 0x200 == vp / 0x4_0000;
    Digit(vp / 0x4_0000, 0x200);
    assert vp / 0x4_0000 / 0x200 == vp / 0x800_0000;
    Digit(vp / 0x800_0000, 0x200);
    assert vp / 0x800_0000 / 0x200 == vp / 0x10_0000_0000;
  }

  lemma Digit(n: nat, base: nat)
    requires base > 0
    ensures n == base * (n / base) + n % base
  {
  }

  lemma UserPathOf(vp: nat)
    requires vp < USER_PAGES
    ensures UserPath(PathOf(vp), TOP_LEVEL, false) && InHalf(PathOf(vp))
  {
  }

  lemma PathsDiffer(a: nat, b: nat)
    requires a < USER_PAGES && CanonicalPage(b) && a != b
    ensures PathOf(a) != PathOf(b)
  {
    var x, y := PathOf(a), PathOf(b);
    if b < USER_PAGES && x == y {
      assert x[0] == y[0] && x[1] == y[1] && x[2] == y[2] && x[3] == y[3];
      SplitPage(a);
      SplitPage(b);
    }
  }

  lemma SplitPage(a: nat)
    requires a < USER_PAGES
    ensures a == ((PathOf(a)[0] * ENTRIES + PathOf(a)[1]) * ENTRIES + PathOf(a)[2]) * ENTRIES + PathOf(a)[3]
  {
    assert a / 0x200 / 0x200 == a / 0x4_0000;
    assert a / 0x4_0000 / 0x200 == a / 0x800_0000 < ENTRIES;
  }

  function PageAt(m: Mem, f: nat): Page { if f < |m.data| then m.data[f] else ZeroPage() }

  ghost predicate Maps(t: Tree, vp: nat) { FrameAt(t, PathOf(vp)).Some? }

  /** The mapper refuses page `vp`: it is mapped, or lies in a large mapping. */
  ghost predicate Blocked(t: Tree, vp: nat) { Maps(t, vp) || Large(t, PathOf(vp)) }

  /** The user pages mapped by a tree, with their contents. */
  ghost function PagesOf(m: Mem, t: Tree): map<nat, Page> {
    map vp: nat | vp < USER_PAGES && Maps(t, vp) :: PageAt(m, FrameAt(t, PathOf(vp)).value)
  }

  ghost function SpaceOf(os: Os, p: nat): Space
    requires os.Live(p)
  {
    Space(os.tasks[p].value.brk, PagesOf(os.m, os.TreeOf(p)))
  }

  /** A process sees whole pages. */
  lemma SeesWholePages(os: Os, held: Held, p: nat)
    requires os.Inv(held) && os.Live(p)
    ensures WholePages(SpaceOf(os, p))
  {
    forall vp: nat | vp in SpaceOf(os, p).pages
      ensures |SpaceOf(os, p).pages[vp]| == PAGE_BYTES
    {
      MappedFrame(os, held, p, vp);
    }
  }

  ghost function WorldOf(os: Os): (w: World)
    ensures |w| == |os.tasks|
    ensures forall p: nat :: p < |w| ==> w[p] == if os.tasks[p].Some? then Some(SpaceOf(os, p)) else None
  {
    seq(|os.tasks|, p requires 0 <= p < |os.tasks| => if os.tasks[p].Some? then Some(SpaceOf(os, p)) else None)
  }

  /** In the user half there is no large mapping. */
  lemma {:induction false} NoLarge(tabs: Tables, table: nat, level: nat, user: bool, path: Path)
    requires UserPath(path, level, user) && Shape(ReadTree(tabs, table, level, user), level)
    ensures !Large(ReadTree(tabs, table, level, user), path)
    decreases level
  {
    var t := ReadTree(tabs, table, level, user);
    var e := EntryAt(tabs, table, path[0]);
    assert t.slots[path[0]] == SlotOf(tabs, e, path[0], level, user);
    assert SlotShape(t.slots[path[0]]);
    if t.slots[path[0]].Sub? {
      UserPathDown(path, level, user);
      NoLarge(tabs, e.frame, level - 1, SubUser(level, path[0], user), path[1..]);
    }
  }

  /** A user page is refused only if it is mapped. */
  lemma BlockedIsMapped(os: Os, held: Held, p: nat, vp: nat)
    requires os.Inv(held) && os.Live(p) && vp < USER_PAGES
    ensures Blocked(os.TreeOf(p), vp) <==> Maps(os.TreeOf(p), vp)
  {
    NoLarge(os.m.tabs, os.tasks[p].value.root, TOP_LEVEL, false, PathOf(vp));
  }

  // ---- mapped frames are counted ----

  lemma {:induction false} LookupCounted(tabs: Tables, table: nat, level: nat, user: bool, path: Path)
    requires UserPath(path, level, user)
    requires Shape(ReadTree(tabs, table, level, user), level)
    requires FrameAt(ReadTree(tabs, table, level, user), path).Some?
    ensures var t := ReadTree(tabs, table, level, user);
      Count(UserMaps, t, FrameAt(t, path).value) >= SlotCount(UserMaps, t.slots[path[0]], FrameAt(t, path).value) > 0
    decreases level
  {
    var t := ReadTree(tabs, table, level, user);
    var f := FrameAt(t, path).value;
    var e := EntryAt(tabs, table, path[0]);
    assert t.slots[path[0]] == SlotOf(tabs, e, path[0], level, user);
    SlotWithin(UserMaps, t, path[0], f);
    if level > 1 {
      assert SlotShape(t.slots[path[0]]);
      UserPathDown(path, level, user);
      LookupCounted(tabs, e.frame, level - 1, true, path[1..]);
    }
  }

  /** Two pages of one process on the same frame are two mappings. */
  lemma {:induction false} LookupTwice(tabs: Tables, table: nat, level: nat, user: bool, x: Path, y: Path)
    requires UserPath(x, level, user) && UserPath(y, level, user) && x != y
    requires Shape(ReadTree(tabs, table, level, user), level)
    requires var t := ReadTree(tabs, table, level, user); FrameAt(t, x).Some? && FrameAt(t, x) == FrameAt(t, y)
    ensures var t := ReadTree(tabs, table, level, user); Count(UserMaps, t, FrameAt(t, x).value) >= 2
    decreases level
  {
    var t := ReadTree(tabs, table, level, user);
    var f := FrameAt(t, x).value;
    assert level == 1 && x[0] == y[0] ==> x == y;
    if x[0] != y[0] {
      LookupCounted(tabs, table, level, user, x);
      LookupCounted(tabs, table, level, user, y);
      SlotsTwo(UserMaps, t.slots, x[0], y[0], f);
    } else {
      var e := EntryAt(tabs, table, x[0]);
      assert t.slots[x[0]] == SlotOf(tabs, e, x[0], level, user);
      assert SlotShape(t.slots[x[0]]);
      assert x == [x[0]] + x[1..] && y == [y[0]] + y[1..];
      UserPathDown(x, level, user);
      UserPathDown(y, level, user);
      LookupTwice(tabs, e.frame, level - 1, true, x[1..], y[1..]);
      SlotWithin(UserMaps, t, x[0], f);
    }
  }

  /** A mapped user page lies in a frame that is in use. */
  lemma MappedFrame(os: Os, held: Held, p: nat, vp: nat)
    requires os.Inv(held) && os.Live(p) && vp < USER_PAGES && FrameAt(os.TreeOf(p), PathOf(vp)).Some?
    ensures var f := FrameAt(os.TreeOf(p), PathOf(vp)).value;
      f < |os.m.data| && !os.m.Free(f) && os.Total(UserMaps, f) > 0 && os.m.Refs(f) > 0
  {
    var f := FrameAt(os.TreeOf(p), PathOf(vp)).value;
    LookupCounted(os.m.tabs, os.tasks[p].value.root, TOP_LEVEL, false, PathOf(vp));
    TaskShare(os, p);
    TreeInv(os, held, p);
    assert os.FrameInv(f, held);
  }

  /** A frame with one mapping is seen through one page of one process only. */
  lemma OnlyView(os: Os, held: Held, p: nat, vp: nat, q: nat, vq: nat)
    requires os.Inv(held) && os.Live(p) && os.Live(q) && vp < USER_PAGES && vq < USER_PAGES
    requires FrameAt(os.TreeOf(p), PathOf(vp)).Some? && FrameAt(os.TreeOf(q), PathOf(vq)) == FrameAt(os.TreeOf(p), PathOf(vp))
    requires os.m.Refs(FrameAt(os.TreeOf(p), PathOf(vp)).value) <= 1
    ensures p == q && vp == vq
  {
    var f := FrameAt(os.TreeOf(p), PathOf(vp)).value;
    assert os.FrameInv(f, held);
    LookupCounted(os.m.tabs, os.tasks[p].value.root, TOP_LEVEL, false, PathOf(vp));
    LookupCounted(os.m.tabs, os.tasks[q].value.root, TOP_LEVEL, false, PathOf(vq));
    if p != q {
      TwoShares(os, p, q);
    } else if vp != vq {
      PathsDiffer(vp, vq);
      LookupTwice(os.m.tabs, os.tasks[p].value.root, TOP_LEVEL, false, PathOf(vp), PathOf(vq));
      TaskShare(os, p);
    }
  }

  // ---- how the steps change what processes see ----

  /** No page but those in frame `f` changed. */
  ghost predicate DataOnly(a: Mem, b: Mem, f: nat) {
    forall g: nat :: g != f ==> PageAt(b, g) == PageAt(a, g)
  }

  lemma SamePages(a: Mem, b: Mem, t: Tree)
    requires forall vp: nat :: vp < USER_PAGES && Maps(t, vp) ==>
      PageAt(b, FrameAt(t, PathOf(vp)).value) == PageAt(a, FrameAt(t, PathOf(vp)).value)
    ensures PagesOf(b, t) == PagesOf(a, t)
  {
  }

  /** A process whose tree is unchanged sees the same memory unless frame `f` is one of its frames. */
  lemma SameSpace(a: Os, b: Os, held: Held, q: nat, f: nat)
    requires a.Inv(held) && a.Live(q) && b.Live(q) && b.TreeOf(q) == a.TreeOf(q) && b.tasks[q] == a.tasks[q]
    requires DataOnly(a.m, b.m, f)
    requires forall vp: nat :: vp < USER_PAGES && Maps(a.TreeOf(q), vp) ==> FrameAt(a.TreeOf(q), PathOf(vp)) != Some(f)
    ensures SpaceOf(b, q) == SpaceOf(a, q)
  {
    SamePages(a.m, b.m, a.TreeOf(q));
  }

  /** Remapping user page `vp` of `p` changes what `p` sees there, and nothing else. */
  lemma RemapWorld(a: Os, b: Os, held: Held, p: nat, vp: nat, was: Option<Entry>, now: Entry, newFrame: bool)
    requires a.Inv(held) && vp < USER_PAGES
    requires Remapped(a, b, p, PathOf(vp), was, now, newFrame)
    requires if newFrame then DataOnly(a.m, b.m, now.frame) else b.m.data == a.m.data
    ensures WorldOf(b) == WorldOf(a)[p := Some(SpaceOf(a, p).(pages := SpaceOf(a, p).pages[vp := PageAt(b.m, now.frame)]))]
  {
    RemapKeepsBooks(a, b, held, p, PathOf(vp), was, now, newFrame);
    var f := if newFrame then now.frame else |a.m.data|;
    OthersSame(a, b, held, p, f);
    OnePageRemapped(a, b, held, p, vp, was, now, f);
  }

  /** Remapping a page above the user half changes what no process sees in its user half. */
  lemma UpperRemapWorld(a: Os, b: Os, held: Held, p: nat, path: Path, was: Option<Entry>, now: Entry, newFrame: bool)
    requires a.Inv(held) && !InHalf(path)
    requires Remapped(a, b, p, path, was, now, newFrame)
    requires if newFrame then DataOnly(a.m, b.m, now.frame) else b.m.data == a.m.data
    ensures WorldOf(b) == WorldOf(a)
  {
    if newFrame {
      UpperRemapLoses(a, b, held, p, path, was, now);
    } else {
      UpperFlagsKeepBooks(a, b, held, p, path, was, now);
    }
    var f := if newFrame then now.frame else |a.m.data|;
    OthersSame(a, b, held, p, f);
    UpperUnseen(a, b, held, p, path, was, Some(now), f);
  }

  /** A walk above the user half leaves the pages of the user half where they were. */
  lemma UpperUnseen(a: Os, b: Os, held: Held, p: nat, path: Path, was: Option<Entry>, now: Option<Entry>, f: nat)
    requires a.Inv(held) && a.Live(p) && b.Live(p) && b.tasks == a.tasks && DataOnly(a.m, b.m, f) && Unused(a.m, f)
    requires WalkPath(path, TOP_LEVEL) && !InHalf(path) && MappingChanged(false, a.TreeOf(p), b.TreeOf(p), path, was, now)
    ensures SpaceOf(b, p) == SpaceOf(a, p)
  {
    var ta, tb := a.TreeOf(p), b.TreeOf(p);
    UnusedUnseen(a, held, p, f);
    forall v: nat | v < USER_PAGES
      ensures FrameAt(tb, PathOf(v)) == FrameAt(ta, PathOf(v))
    {
      assert PathOf(v) != path;
      assert Lookup(tb, PathOf(v)) == Lookup(ta, PathOf(v));
    }
    PagesMoved(a.m, b.m, ta, tb);
  }

  lemma PagesMoved(a: Mem, b: Mem, ta: Tree, tb: Tree)
    requires forall v: nat :: v < USER_PAGES ==> FrameAt(tb, PathOf(v)) == FrameAt(ta, PathOf(v))
    requires forall v: nat :: v < USER_PAGES && Maps(ta, v) ==> PageAt(b, FrameAt(ta, PathOf(v)).value) == PageAt(a, FrameAt(ta, PathOf(v)).value)
    ensures PagesOf(b, tb) == PagesOf(a, ta)
  {
    assert forall v: nat :: v < USER_PAGES ==> (Maps(tb, v) <==> Maps(ta, v));
  }

  /** Opening tables to the user changes nobody's view. */
  lemma OpeningWorld(a: Os, b: Os, held: Held, p: nat, path: Path)
    requires a.Inv(held) && FlagsOpened(a, b, p, path)
    ensures WorldOf(b) == WorldOf(a)
  {
    if !InHalf(path) {
      OpeningKeepsBooks(a, b, held, p, path);
      OthersSame(a, b, held, p, |a.m.data|);
      UpperUnseen(a, b, held, p, path, Lookup(a.TreeOf(p), path), Lookup(a.TreeOf(p), path), |a.m.data|);
    }
  }

  /** Frame `f` is free or does not exist. */
  ghost predicate Unused(m: Mem, f: nat) { m.Free(f) || f >= |m.data| }

  /** Such a frame is in nobody's sight. */
  lemma UnusedUnseen(a: Os, held: Held, q: nat, f: nat)
    requires a.Inv(held) && a.Live(q) && Unused(a.m, f)
    ensures forall vq: nat :: vq < USER_PAGES && Maps(a.TreeOf(q), vq) ==> FrameAt(a.TreeOf(q), PathOf(vq)) != Some(f)
  {
    forall vq: nat | vq < USER_PAGES && Maps(a.TreeOf(q), vq)
      ensures FrameAt(a.TreeOf(q), PathOf(vq)) != Some(f)
    {
      MappedFrame(a, held, q, vq);
    }
  }

  lemma OthersSame(a: Os, b: Os, held: Held, p: nat, f: nat)
    requires a.Inv(held) && b.tasks == a.tasks && DataOnly(a.m, b.m, f) && Unused(a.m, f)
    requires forall q: nat :: a.Live(q) && q != p ==> b.Live(q) && b.TreeOf(q) == a.TreeOf(q)
    ensures forall q: nat :: a.Live(q) && q != p ==> SpaceOf(b, q) == SpaceOf(a, q)
  {
    forall q: nat | a.Live(q) && q != p
      ensures SpaceOf(b, q) == SpaceOf(a, q)
    {
      UnusedUnseen(a, held, q, f);
      SameSpace(a, b, held, q, f);
    }
  }

  lemma OnePageRemapped(a: Os, b: Os, held: Held, p: nat, vp: nat, was: Option<Entry>, now: Entry, f: nat)
    requires a.Inv(held) && a.Live(p) && b.Live(p) && vp < USER_PAGES && DataOnly(a.m, b.m, f) && Unused(a.m, f)
    requires MappingChanged(true, a.TreeOf(p), b.TreeOf(p), PathOf(vp), was, Some(now))
    ensures PagesOf(b.m, b.TreeOf(p)) == PagesOf(a.m, a.TreeOf(p))[vp := PageAt(b.m, now.frame)]
  {
    var ta, tb := a.TreeOf(p), b.TreeOf(p);
    UnusedUnseen(a, held, p, f);
    forall v: nat | v < USER_PAGES
      ensures FrameAt(tb, PathOf(v)) == if v == vp then Some(now.frame) else FrameAt(ta, PathOf(v))
    {
      if v != vp {
        PathsDiffer(v, vp);
        assert Lookup(tb, PathOf(v)) == Lookup(ta, PathOf(v));
      }
    }
    PagesReplaced(a.m, b.m, ta, tb, vp, now.frame);
  }

  lemma PagesReplaced(a: Mem, b: Mem, ta: Tree, tb: Tree, vp: nat, nf: nat)
    requires vp < USER_PAGES
    requires forall v: nat :: v < USER_PAGES ==> FrameAt(tb, PathOf(v)) == if v == vp then Some(nf) else FrameAt(ta, PathOf(v))
    requires forall v: nat :: v < USER_PAGES && v != vp && Maps(ta, v) ==>
      PageAt(b, FrameAt(ta, PathOf(v)).value) == PageAt(a, FrameAt(ta, PathOf(v)).value)
    ensures PagesOf(b, tb) == PagesOf(a, ta)[vp := PageAt(b, nf)]
  {
    var expected := PagesOf(a, ta)[vp := PageAt(b, nf)];
    forall v: nat | v < USER_PAGES
      ensures v in PagesOf(b, tb) <==> v in expected
      ensures v in expected ==> PagesOf(b, tb)[v] == expected[v]
    {
      assert Maps(tb, v) <==> v == vp || Maps(ta, v);
    }
    assert PagesOf(b, tb) == expected;
  }

  /** Changing bytes or the break, but no table and no count, keeps the books and the trees. */
  lemma BytesKeepBooks(a: Os, b: Os, held: Held)
    requires a.Inv(held) && b.m == a.m.(data := b.m.data) && b.m.Sized()
    requires |b.tasks| == |a.tasks|
    requires forall q: nat :: q < |a.tasks| ==> (a.Live(q) <==> b.Live(q)) && (a.Live(q) ==> b.tasks[q].value.root == a.tasks[q].value.root)
    ensures b.Inv(held)
    ensures forall q: nat :: a.Live(q) ==> b.TreeOf(q) == a.TreeOf(q)
  {
    assert b.Forest() == a.Forest();
    forall g: nat
      ensures b.FrameInv(g, held)
    {
      assert a.FrameInv(g, held);
      assert b.m.Free(g) == a.m.Free(g) && b.m.Refs(g) == a.m.Refs(g);
    }
    forall q: nat | b.Live(q)
      ensures Shape(b.TreeOf(q), TOP_LEVEL)
    {
      assert Shape(a.TreeOf(q), TOP_LEVEL);
    }
  }

  const ENTRY_BYTES := 8

  /**
   The state after `value` was stored in frame `f`.  The bytes change, and so may the table entry
   that these bytes are, if the frame serves as a table; outside of RAM nothing changes.
  */
  ghost predicate StoredIn(a: Os, b: Os, f: nat, offset: nat, value: u8) {
    && b.tasks == a.tasks && b.m == a.m.(data := b.m.data, tabs := b.m.tabs) && b.m.Sized()
    && b.m.data == (if f < |a.m.data| then a.m.data[f := StoreByte(a.m.data[f], offset, value)] else a.m.data)
    && (forall g: nat :: g != f ==> SameTable(a.m.tabs, b.m.tabs, g))
    && (forall j: nat :: j < ENTRIES && j != offset / ENTRY_BYTES ==> EntryAt(b.m.tabs, f, j) == EntryAt(a.m.tabs, f, j))
  }

  /** A store into a frame that is no table of a process keeps the books and the trees. */
  lemma StoreKeepsBooks(a: Os, b: Os, held: Held, f: nat, offset: nat, value: u8)
    requires a.Inv(held) && StoredIn(a, b, f, offset, value) && a.Total(TableFrames, f) == 0
    ensures b.Inv(held)
    ensures forall q: nat :: a.Live(q) ==> b.TreeOf(q) == a.TreeOf(q)
  {
    forall q: nat | a.Live(q)
      ensures b.TreeOf(q) == a.TreeOf(q)
    {
      TaskShare(a, q);
      TreeFrame(a.m.tabs, b.m.tabs, a.tasks[q].value.root, TOP_LEVEL, false);
    }
    assert b.Forest() == a.Forest();
    forall g: nat
      ensures b.FrameInv(g, held)
    {
      assert a.FrameInv(g, held);
      assert b.m.Free(g) == a.m.Free(g) && b.m.Refs(g) == a.m.Refs(g);
    }
    forall q: nat | b.Live(q)
      ensures Shape(b.TreeOf(q), TOP_LEVEL)
    {
      assert Shape(a.TreeOf(q), TOP_LEVEL);
    }
  }

  /** Some process maps frame `f` in its user half. */
  ghost predicate Seen(a: Os, f: nat) { exists q: nat, vq: nat :: SeenAt(a, f, q, vq) }

  ghost predicate SeenAt(a: Os, f: nat, q: nat, vq: nat) {
    a.Live(q) && vq < USER_PAGES && FrameAt(a.TreeOf(q), PathOf(vq)) == Some(f)
  }

  /** The byte is there already. */
  predicate SameByte(m: Mem, f: nat, offset: nat, value: u8) {
    f < |m.data| && offset < |m.data[f]| && m.data[f][offset] == value
  }

  /** A process that maps the frame sees the store there. */
  lemma StoreSeen(a: Os, b: Os, held: Held, f: nat, offset: nat, value: u8, q: nat, vq: nat)
    requires a.Inv(held) && StoredIn(a, b, f, offset, value) && SeenAt(a, f, q, vq)
    ensures b.Inv(held) && b.Live(q) && f < |a.m.data| && vq in SpaceOf(a, q).pages && vq in SpaceOf(b, q).pages
    ensures SpaceOf(b, q).pages[vq] == StoreByte(SpaceOf(a, q).pages[vq], offset, value)
  {
    MappedFrame(a, held, q, vq);
    assert a.FrameInv(f, held);
    StoreKeepsBooks(a, b, held, f, offset, value);
    assert Maps(a.TreeOf(q), vq) && Maps(b.TreeOf(q), vq);
  }

  /** A store shows in no process exactly if no process maps the frame, or the byte was there. */
  lemma StoreShows(a: Os, b: Os, held: Held, f: nat, offset: nat, value: u8)
    requires a.Inv(held) && StoredIn(a, b, f, offset, value) && a.Total(TableFrames, f) == 0 && offset < PAGE_BYTES
    ensures WorldOf(b) == WorldOf(a) <==> !Seen(a, f) || SameByte(a.m, f, offset, value)
  {
    StoreKeepsBooks(a, b, held, f, offset, value);
    if !Seen(a, f) || SameByte(a.m, f, offset, value) {
      forall q: nat | a.Live(q)
        ensures SpaceOf(b, q) == SpaceOf(a, q)
      {
        forall v: nat | v < USER_PAGES && Maps(a.TreeOf(q), v)
          ensures PageAt(b.m, FrameAt(a.TreeOf(q), PathOf(v)).value) == PageAt(a.m, FrameAt(a.TreeOf(q), PathOf(v)).value)
        {
          assert FrameAt(a.TreeOf(q), PathOf(v)) == Some(f) ==> SeenAt(a, f, q, v);
        }
        SamePages(a.m, b.m, a.TreeOf(q));
      }
    } else {
      var q: nat, vq: nat :| SeenAt(a, f, q, vq);
      StoreSeen(a, b, held, f, offset, value, q, vq);
      assert WorldOf(b)[q].value.pages[vq][offset] != WorldOf(a)[q].value.pages[vq][offset];
    }
  }

  lemma StoredPages(a: Mem, b: Mem, t: Tree, vp: nat, page: Page)
    requires vp < USER_PAGES && Maps(t, vp) && PageAt(b, FrameAt(t, PathOf(vp)).value) == page
    requires DataOnly(a, b, FrameAt(t, PathOf(vp)).value)
    requires forall v: nat :: v < USER_PAGES && Maps(t, v) && v != vp ==> FrameAt(t, PathOf(v)) != FrameAt(t, PathOf(vp))
    ensures PagesOf(b, t) == PagesOf(a, t)[vp := page]
  {
    forall v: nat | v < USER_PAGES && Maps(t, v)
      ensures PagesOf(b, t)[v] == if v == vp then page else PagesOf(a, t)[v]
    {
    }
  }

  /** A frame with one mapping shows up nowhere else. */
  lemma OthersDoNotSee(a: Os, held: Held, p: nat, vp: nat)
    requires a.Inv(held) && a.Live(p) && vp < USER_PAGES && Maps(a.TreeOf(p), vp)
    requires a.m.Refs(FrameAt(a.TreeOf(p), PathOf(vp)).value) == 1
    ensures forall q: nat, vq: nat :: a.Live(q) && vq < USER_PAGES && Maps(a.TreeOf(q), vq) && !(q == p && vq == vp) ==>
      FrameAt(a.TreeOf(q), PathOf(vq)) != FrameAt(a.TreeOf(p), PathOf(vp))
  {
    forall q: nat, vq: nat | a.Live(q) && vq < USER_PAGES && Maps(a.TreeOf(q), vq) && !(q == p && vq == vp)
      ensures FrameAt(a.TreeOf(q), PathOf(vq)) != FrameAt(a.TreeOf(p), PathOf(vp))
    {
      if FrameAt(a.TreeOf(q), PathOf(vq)) == FrameAt(a.TreeOf(p), PathOf(vp)) {
        OnlyView(a, held, p, vp, q, vq);
      }
    }
  }

  /** A byte stored in a frame with a single mapping is seen by that mapping only. */
  lemma StoreWorld(a: Os, b: Os, held: Held, p: nat, va: nat, value: u8)
    requires a.Inv(held) && va < USER_BYTES && a.Live(p) && Maps(a.TreeOf(p), va / PAGE_BYTES)
    requires var f := FrameAt(a.TreeOf(p), PathOf(va / PAGE_BYTES)).value;
      StoredIn(a, b, f, va % PAGE_BYTES, value) && a.m.Refs(f) == 1
    ensures b.Inv(held)
    ensures WorldOf(b) == WorldOf(a)[p := Some(SpaceOf(a, p).WriteByte(va, value))]
  {
    var vp := va / PAGE_BYTES;
    var t := a.TreeOf(p);
    var f := FrameAt(t, PathOf(vp)).value;
    MappedFrame(a, held, p, vp);
    assert a.FrameInv(f, held);
    StoreKeepsBooks(a, b, held, f, va % PAGE_BYTES, value);
    OthersDoNotSee(a, held, p, vp);
    forall q: nat | a.Live(q) && q != p
      ensures SpaceOf(b, q) == SpaceOf(a, q)
    {
      SameSpace(a, b, held, q, f);
    }
    StoredPages(a.m, b.m, t, vp, StoreByte(a.m.data[f], va % PAGE_BYTES, value));
    OneSpaceChanged(a, b, p, SpaceOf(a, p).WriteByte(va, value));
  }

  lemma OneSpaceChanged(a: Os, b: Os, p: nat, s: Space)
    requires a.Live(p) && b.tasks == a.tasks && SpaceOf(b, p) == s
    requires forall q: nat :: a.Live(q) && q != p ==> SpaceOf(b, q) == SpaceOf(a, q)
    ensures WorldOf(b) == WorldOf(a)[p := Some(s)]
  {
  }

  /** No page of `p` lies behind a table above 4 GiB. */
  ghost predicate AllReached(a: Os, p: nat)
    requires a.Live(p)
  {
    forall vp: nat :: vp < USER_PAGES && Maps(a.TreeOf(p), vp) ==> Maps(ReachedTree(a.TreeOf(p)), vp)
  }

  lemma {:induction false} ReachedLookup(t: Tree, path: Path)
    ensures FrameAt(ReachedTree(t), path).Some? ==> FrameAt(ReachedTree(t), path) == FrameAt(t, path)
    decreases path
  {
    if path != [] && path[0] < |t.slots| {
      var s := t.slots[path[0]];
      if s.Sub? && !TooHigh(s.e) {
        ReachedLookup(s.tree, path[1..]);
      }
    }
  }

  /** Where the pages of parent and child lie after the fork. */
  lemma ForkFrames(a: Os, b: Os, held: Held, p: nat, child: nat, dest: nat)
    requires a.Inv(held) && ForkStep(a, b, p, child, dest)
    ensures b.Live(child) && b.Live(p)
    ensures forall vp: nat :: FrameAt(b.TreeOf(p), PathOf(vp)) == FrameAt(a.TreeOf(p), PathOf(vp))
    ensures forall vp: nat :: Maps(b.TreeOf(child), vp) <==> Maps(ReachedTree(a.TreeOf(p)), vp)
    ensures forall vp: nat :: Maps(b.TreeOf(child), vp) ==> FrameAt(b.TreeOf(child), PathOf(vp)) == FrameAt(a.TreeOf(p), PathOf(vp))
  {
    ForkTrees(a, b, held, p, child, dest);
    var t, d := a.TreeOf(p), b.TreeOf(child);
    forall vp: nat
      ensures FrameAt(b.TreeOf(p), PathOf(vp)) == FrameAt(t, PathOf(vp))
      ensures Maps(d, vp) <==> Maps(ReachedTree(t), vp)
      ensures Maps(d, vp) ==> FrameAt(d, PathOf(vp)) == FrameAt(t, PathOf(vp))
    {
      ProtectLookup(t, PathOf(vp));
      CopyLookup(t, d, PathOf(vp));
      ReachedLookup(t, PathOf(vp));
    }
  }

  lemma PagesByFrames(a: Mem, b: Mem, t: Tree, t': Tree)
    requires b.data == a.data
    requires forall vp: nat :: vp < USER_PAGES ==> FrameAt(t', PathOf(vp)) == FrameAt(t, PathOf(vp))
    ensures PagesOf(b, t') == PagesOf(a, t)
  {
    assert forall vp: nat :: vp < USER_PAGES ==> (Maps(t', vp) <==> Maps(t, vp));
  }

  lemma ForkViews(a: Os, b: Os, held: Held, p: nat, child: nat, dest: nat, q: nat)
    requires a.Inv(held) && ForkStep(a, b, p, child, dest) && a.Live(q)
    ensures b.Live(q) && SpaceOf(b, q) == SpaceOf(a, q)
  {
    ForkFrames(a, b, held, p, child, dest);
    ForkTrees(a, b, held, p, child, dest);
    PagesByFrames(a.m, b.m, a.TreeOf(q), b.TreeOf(q));
  }

  /** Fork changes no process's view; it adds the child. */
  lemma ForkWorld(a: Os, b: Os, held: Held, p: nat, child: nat, dest: nat)
    requires a.Inv(held) && ForkStep(a, b, p, child, dest)
    ensures b.Live(child)
    ensures WorldOf(b) == Put(WorldOf(a), child, Some(SpaceOf(b, child)))
  {
    forall q: nat | a.Live(q)
      ensures b.Live(q) && SpaceOf(b, q) == SpaceOf(a, q)
    {
      ForkViews(a, b, held, p, child, dest, q);
    }
    var w := Put(WorldOf(a), child, Some(SpaceOf(b, child)));
    forall q: nat | q < |w|
      ensures WorldOf(b)[q] == w[q]
    {
    }
  }

  /**
   The child sees exactly what its parent sees if and only if no page of the parent lies behind
   a table above 4 GiB.
  */
  lemma ForkChild(a: Os, b: Os, held: Held, p: nat, child: nat, dest: nat)
    requires a.Inv(held) && ForkStep(a, b, p, child, dest)
    ensures b.Live(child)
    ensures SpaceOf(b, child) == SpaceOf(a, p) <==> AllReached(a, p)
  {
    ForkFrames(a, b, held, p, child, dest);
    var t, d := a.TreeOf(p), b.TreeOf(child);
    if AllReached(a, p) {
      forall vp: nat | vp < USER_PAGES
        ensures FrameAt(d, PathOf(vp)) == FrameAt(t, PathOf(vp))
      {
        ReachedLookup(t, PathOf(vp));
        assert Maps(d, vp) <==> Maps(ReachedTree(t), vp);
        assert Maps(t, vp) <==> Maps(d, vp);
      }
      PagesByFrames(a.m, b.m, t, d);
    } else {
      var vp: nat :| vp < USER_PAGES && Maps(t, vp) && !Maps(ReachedTree(t), vp);
      assert vp in PagesOf(a.m, t) && vp !in PagesOf(b.m, d);
    }
  }

  /** Giving back one address space leaves what the others see. */
  lemma ReleaseWorld(a: Os, m1: Mem, b: Os, held: Held, p: nat, root: bool)
    requires a.Inv(held) && Released(a, m1, b, p, root)
    ensures root ==> WorldOf(b) == WorldOf(a)[p := None]
    ensures !root ==> WorldOf(b) == WorldOf(a)[p := Some(Space(b.tasks[p].value.brk, map[]))]
  {
    ReleaseKeepsBooks(a, m1, b, held, p, root);
    forall q: nat | a.Live(q) && q != p
      ensures SpaceOf(b, q) == SpaceOf(a, q)
    {
      SamePages(a.m, b.m, a.TreeOf(q));
    }
    if !root {
      WhatRemains(a.m, m1, a.tasks[p].value.root, true);
      var t := b.TreeOf(p);
      forall vp: nat | vp < USER_PAGES
        ensures !Maps(t, vp)
      {
        assert t.slots[PathOf(vp)[0]] == Absent;
      }
      assert PagesOf(b.m, t) == map[];
    }
  }

  lemma BrkWorld(a: Os, b: Os, held: Held, p: nat, brk: nat)
    requires a.Inv(held) && a.Live(p) && b == a.(tasks := a.tasks[p := Some(a.tasks[p].value.(brk := brk))])
    ensures b.Inv(held)
    ensures WorldOf(b) == WorldOf(a)[p := Some(SpaceOf(a, p).(brk := brk))]
  {
    BytesKeepBooks(a, b, held);
  }
}
