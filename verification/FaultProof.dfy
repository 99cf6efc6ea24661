/**
 How the memory operations of a page fault combine into one remapping step.
*/
module FaultProof {
  import opened Prelude
  import opened PageTree
  import opened PhysMems
  import opened TreeWalk
  import opened TableMap
  import opened FrameBooks
  import opened PageProof
  import opened EagerOs
  import opened Views

  /** `m` is `a` after the free frame `nf` was taken, with `n` references. */
  ghost predicate FrameTaken(a: Mem, m: Mem, nf: nat, n: nat) {
    && a.Free(nf) && nf < |a.refs| && n < COUNT_LIMIT
    && m == a.(free := a.free[nf := false], refs := a.refs[nf := n])
  }

  lemma FrameTakenSized(a: Mem, m: Mem, nf: nat, n: nat)
    requires a.Sized() && FrameTaken(a, m, nf, n)
    ensures m.Sized() && m.SameShape(a)
    ensures forall f: nat :: m.Free(f) == (a.Free(f) && f != nf)
    ensures forall f: nat :: m.Refs(f) == if f == nf then n else a.Refs(f)
  {
    SizedAfterTake(a, nf);
    SizedAfterCount(a.(free := a.free[nf := false]), nf, n);
  }

  /** The top-level mapping job of a task. */
  function TopJob(root: nat, path: Path, e: Entry): MapJob { MapJob(root, TOP_LEVEL, false, path, e) }

  /** A frame just taken can be mapped at a page. */
  lemma TakenMappable(a: Os, m: Mem, held: Held, p: nat, vp: nat, nf: nat, n: nat, e: Entry)
    requires a.Inv(held) && a.Live(p) && FrameTaken(a.m, m, nf, n) && UserEntry(e)
    ensures Mappable(m, TopJob(a.tasks[p].value.root, PathOf(vp), e))
    ensures TopJob(a.tasks[p].value.root, PathOf(vp), e).Tree(m) == a.TreeOf(p)
  {
    TreeInv(a, held, p);
    FrameTakenSized(a.m, m, nf, n);
  }

  /** Taking a frame and mapping it where nothing was mapped is one remapping step. */
  lemma MapIsRemap(a: Os, m: Mem, m': Mem, b: Os, held: Held, p: nat, vp: nat, nf: nat, n: nat, e: Entry)
    requires a.Inv(held) && a.Live(p) && FrameTaken(a.m, m, nf, n) && UserEntry(e) && e.frame == nf
    requires Mapped(m, m', TopJob(a.tasks[p].value.root, PathOf(vp), e))
    requires b.tasks == a.tasks && b.m.Sized() && b.m.SameShape(m') && b.m.tabs == m'.tabs && b.m.free == m'.free
    requires forall f: nat :: b.m.Refs(f) == if f == nf then 1 else a.m.Refs(f)
    ensures Remapped(a, b, p, PathOf(vp), None, e, true)
  {
    var job := TopJob(a.tasks[p].value.root, PathOf(vp), e);
    FrameTakenSized(a.m, m, nf, n);
    assert job.Tree(m) == a.TreeOf(p) && job.Tree(m') == b.TreeOf(p);
    assert a.FrameInv(nf, held);
    assert forall f: nat :: b.m.Free(f) == m'.Free(f);
    assert a.m.Refs(nf) == 0;
    assert forall f: nat :: Holds(true, Some(e), UserMaps, f) == if f == nf then 1 else 0;
    assert forall f: nat :: Holds(true, None, UserMaps, f) == 0;
  }

  /** What stays true of a frame that nobody else refers to when it is taken. */
  lemma TakenUnmapped(a: Os, held: Held, nf: nat)
    requires a.Inv(held) && a.m.Free(nf)
    ensures nf < |a.m.refs| && a.m.Refs(nf) == 0
  {
    assert a.FrameInv(nf, held);
  }

  // ---- copy-on-write ----

  const WRITABLE_USER := Entry(true, true, true, false, 0, 0)

  /** Present, writable, open to the user, a small page, and no other flag. */
  function UserPageEntry(frame: nat): (e: Entry)
    ensures e == Entry(true, true, true, false, 0, frame)
  {
    WRITABLE_USER.(frame := frame)
  }

  /** The mapping of page `vp` of `p`, as the handler finds it. */
  ghost predicate MappedAs(a: Os, p: nat, vp: nat, was: Entry, lt: nat) {
    && a.Live(p) && CanonicalPage(vp)
    && Lookup(a.TreeOf(p), PathOf(vp)) == Some(was)
    && LeafTable(a.m.tabs, a.tasks[p].value.root, TOP_LEVEL, PathOf(vp)) == Some(lt)
  }

  lemma MappedFacts(a: Os, held: Held, p: nat, vp: nat, was: Entry, lt: nat)
    requires a.Inv(held) && MappedAs(a, p, vp, was, lt)
    ensures lt < |a.m.tabs| && EntryAt(a.m.tabs, lt, PathOf(vp)[3]) == was && was.present
    ensures vp < USER_PAGES ==> UserEntry(was) && was.frame < |a.m.data| && a.m.Refs(was.frame) > 0
  {
    var root := a.tasks[p].value.root;
    TreeInv(a, held, p);
    LeafIsLookup(a.m.tabs, root, TOP_LEVEL, false, PathOf(vp));
    StoreAtLeaf(a.m.tabs, a.m.tabs, root, TOP_LEVEL, false, PathOf(vp), Some(was), was);
    if vp < USER_PAGES {
      MmuIsLookup(a.m.tabs, root, TOP_LEVEL, false, PathOf(vp), UserMode, false);
      assert Maps(a.TreeOf(p), vp);
      MappedFrame(a, held, p, vp);
    }
  }

  /** A frame that nobody else counts becomes writable in place. */
  lemma ReuseIsRemap(a: Os, b: Os, held: Held, p: nat, vp: nat, was: Entry, lt: nat)
    requires a.Inv(held) && MappedAs(a, p, vp, was, lt) && a.m.Refs(was.frame) <= 1
    requires b.tasks == a.tasks && b.m == a.m.(tabs := b.m.tabs) && b.m.Sized() && |b.m.tabs| == |a.m.tabs|
    requires StoredAt(a.m.tabs, b.m.tabs, lt, PathOf(vp)[3], UserPageEntry(was.frame))
    ensures Remapped(a, b, p, PathOf(vp), Some(was), UserPageEntry(was.frame), false)
  {
    var now := UserPageEntry(was.frame);
    TreeInv(a, held, p);
    MappedFacts(a, held, p, vp, was, lt);
    StoreAtLeaf(a.m.tabs, b.m.tabs, a.tasks[p].value.root, TOP_LEVEL, false, PathOf(vp), Some(was), now);
    assert forall f: nat :: b.m.Free(f) == a.m.Free(f) && b.m.Refs(f) == a.m.Refs(f);
    assert Count(TableFrames, b.TreeOf(p), lt) > 0;
  }

  /** The memory in the middle of a copy-on-write copy: new frame taken, old reference dropped, page unmapped. */
  ghost predicate Unmapped(a: Os, m: Mem, vp: nat, was: Entry, lt: nat, nf: nat) {
    && a.m.Free(nf) && m.Sized() && m.SameShape(a.m)
    && (forall f: nat :: m.Free(f) == (a.m.Free(f) && f != nf))
    && (forall f: nat :: m.Refs(f) == if f == was.frame then a.m.Refs(f) - 1 else a.m.Refs(f))
    && StoredAt(a.m.tabs, m.tabs, lt, PathOf(vp)[3], UNUSED)
  }

  lemma UnmappedMappable(a: Os, m: Mem, held: Held, p: nat, vp: nat, was: Entry, lt: nat, nf: nat)
    requires a.Inv(held) && MappedAs(a, p, vp, was, lt) && Unmapped(a, m, vp, was, lt, nf)
    ensures Mappable(m, TopJob(a.tasks[p].value.root, PathOf(vp), UserPageEntry(nf)))
    ensures MappingChanged(InHalf(PathOf(vp)), a.TreeOf(p), TopJob(a.tasks[p].value.root, PathOf(vp), UserPageEntry(nf)).Tree(m), PathOf(vp), Some(was), None)
    ensures forall f: nat ::
      Count(TableFrames, TopJob(a.tasks[p].value.root, PathOf(vp), UserPageEntry(nf)).Tree(m), f) == Count(TableFrames, a.TreeOf(p), f)
    ensures Count(TableFrames, a.TreeOf(p), lt) > 0
  {
    TreeInv(a, held, p);
    MappedFacts(a, held, p, vp, was, lt);
    StoreAtLeaf(a.m.tabs, m.tabs, a.tasks[p].value.root, TOP_LEVEL, false, PathOf(vp), Some(was), UNUSED);
  }

  /** Dropping the shared mapping and mapping the copy is one remapping step. */
  lemma CopyIsRemap(a: Os, m: Mem, m': Mem, b: Os, held: Held, p: nat, vp: nat, was: Entry, lt: nat, nf: nat)
    requires a.Inv(held) && MappedAs(a, p, vp, was, lt) && a.m.Refs(was.frame) > 1
    requires Unmapped(a, m, vp, was, lt, nf)
    requires Mapped(m, m', TopJob(a.tasks[p].value.root, PathOf(vp), UserPageEntry(nf)))
    requires b.tasks == a.tasks && b.m.Sized() && b.m.SameShape(m') && b.m.tabs == m'.tabs && b.m.free == m'.free
    requires forall f: nat :: b.m.Refs(f) == if f == nf then m'.Refs(f) + 1 else m'.Refs(f)
    ensures Remapped(a, b, p, PathOf(vp), Some(was), UserPageEntry(nf), true)
  {
    var now := UserPageEntry(nf);
    var job := TopJob(a.tasks[p].value.root, PathOf(vp), now);
    UnmappedMappable(a, m, held, p, vp, was, lt, nf);
    MappedFacts(a, held, p, vp, was, lt);
    MappingChangedTwice(InHalf(PathOf(vp)), a.TreeOf(p), job.Tree(m), job.Tree(m'), PathOf(vp), Some(was), None, Some(now));
    assert job.Tree(m') == b.TreeOf(p);
    assert forall f: nat :: b.m.Free(f) == m'.Free(f);
    assert forall f: nat :: m'.Refs(f) == m.Refs(f);
    CopyCountsRight(a, m, b, was, now, nf);
    forall f: nat | Count(TableFrames, b.TreeOf(p), f) == 0
      ensures SameTable(a.m.tabs, b.m.tabs, f)
    {
      assert Count(TableFrames, job.Tree(m), f) == 0;
      assert SameTable(a.m.tabs, m.tabs, f) && SameTable(m.tabs, m'.tabs, f);
    }
  }

  lemma CopyCountsRight(a: Os, m: Mem, b: Os, was: Entry, now: Entry, nf: nat)
    requires a.m.Refs(was.frame) > 1 && now.frame == nf
    requires forall f: nat :: m.Refs(f) == if f == was.frame then a.m.Refs(f) - 1 else a.m.Refs(f)
    requires forall f: nat :: b.m.Refs(f) == if f == nf then m.Refs(f) + 1 else m.Refs(f)
    ensures forall f: nat :: b.m.Refs(f) + Holds(true, Some(was), UserMaps, f) == a.m.Refs(f) + Holds(true, Some(now), UserMaps, f)
  {
  }
}
