/** The kernel's page-table code acting on physical memory (sys/mmu.c). */
module Mmu {
  import opened Paging
  import FrameAllocator

  lemma TwoMembers(s: set<nat>, a: nat, b: nat)
    requires a in s && b in s && a != b
    ensures |s| > 1
  {
    assert {a, b} <= s;
    assert |s - {a}| + 1 == |s| && b in s - {a};
  }

  lemma LeafWriteKeepsMade(mem0: Memory, mem: Memory, role: Roles, t: nat, i: nat, w: Word, r: nat, p: Path)
    requires TreeOk(mem, role) && t < |role| && role[t].Table? && role[t].pos.L1? && i < ENTRIES
    requires IsRoot(role, r) && TablesMade(mem0, mem, r, p, 3)
    ensures TablesMade(mem0, SetEntry(mem, t, i, w), r, p, 3)
  {
    hide MissingTables;
    forall v | ValidPath(v) ensures MissingTables(SetEntry(mem, t, i, w), r, v) == MissingTables(mem, r, v) {
      LeafWriteMissing(mem, role, t, i, w, r, v);
    }
  }

  lemma LeafWriteElsewhere(mem0: Memory, mem: Memory, role0: Roles, role: Roles, t: nat, i: nat, w: Word,
                           root: nat, p: Path)
    requires TreeOk(mem, role) && t < |role| && role[t].Table? && role[t].pos.L1? && i < ENTRIES
    requires Extends(role0, role) && SameMissingBut(mem0, mem, role0, root, p)
    ensures SameMissingBut(mem0, SetEntry(mem, t, i, w), role0, root, p)
  {
    hide MissingTables;
    forall r, v | IsRoot(role0, r) && UserPath(v)
      ensures MissingTables(SetEntry(mem, t, i, w), r, v) == MissingTables(mem, r, v)
    {
      LeafWriteMissing(mem, role, t, i, w, r, v);
    }
  }

  class Machine {
    var mem: Memory
    var cr3: nat
    const pages: FrameAllocator.PageList
    ghost var role: Roles

    /** The lists and the trees are in order. */
    ghost predicate Valid()
      reads this`mem, this`role, pages, pages.pageMap
    {
      && pages.Valid()
      && |mem| == |role| == pages.LastPage() + 1 <= 0x8_0000
      && (forall f :: 0 <= f < |role| ==> (role[f].Free? <==> f in pages.Free()))
      && TreeOk(mem, role)
    }

    /** Power-on: memory holds anything, but the frames on the free list read as
        zero, because allocatePage does not clear what it hands out. */
    constructor (pages: FrameAllocator.PageList, mem: Memory)
      requires pages.Valid()
      requires |mem| == pages.LastPage() + 1 <= 0x8_0000 && Shape(mem)
      requires forall f :: f in pages.Free() && f < |mem| ==> mem[f] == ZeroFrame()
      ensures this.pages == pages && this.mem == mem && Valid()
      ensures forall f :: 0 <= f < |role| ==> role[f] == Free || role[f] == Kern
    {
      this.pages := pages;
      this.mem := mem;
      this.cr3 := 0;
      ghost var free := pages.Free();
      this.role := seq(|mem|, f => if f in free then Free else Kern);
    }

    /** Only the last page is left; the kernel does not survive this state. */
    ghost predicate Exhausted()
      reads pages, pages.pageMap
    {
      pages.Free() == {pages.LastPage()}
    }

    /** allocatePage with frame numbers for addresses, so that frame 0, if it was free,
        differs from failure.  The code that calls allocatePage makes no such difference. */
    method AllocFrame() returns (ok: bool, f: nat)
      requires Valid()
      modifies this`role, pages`firstFree, pages.pageMap
      ensures Valid()
      ensures ok <==> |FreeFrames(old(role))| > 1
      ensures ok ==> f < |role| && old(role)[f].Free? && role == old(role)[f := Kern]
      ensures ok ==> |FreeFrames(role)| + 1 == |FreeFrames(old(role))|
      ensures !ok ==> Exhausted() && role == old(role)
    {
      FreeIsFreeFrames();
      hide FrameAllocator.IsFreeList;
      var address := pages.UnsetPage();
      f := address;
      if address == FrameAllocator.END_MARK {
        return false, f;
      }
      ok := true;
      assert f in FreeFrames(role) && pages.LastPage() in FreeFrames(role);
      TwoMembers(FreeFrames(role), f, pages.LastPage());
      TakenFrame(role, f, Kern);
      RetagKeepsTree(mem, role, f, Kern);
      role := role[f := Kern];
    }

    /** The trees are typed. */
    lemma ValidTrees()
      requires Valid()
      ensures |mem| == |role| && TreeOk(mem, role) && Shape(mem)
    { }

    /** The free list and the roles agree, and the last page is always free. */
    lemma FreeIsFreeFrames()
      requires Valid()
      ensures pages.Free() == FreeFrames(role) && pages.LastPage() in FreeFrames(role)
      ensures |FreeFrames(role)| >= 1 && (Exhausted() ==> |FreeFrames(role)| == 1)
    {
      assert pages.Free() == FreeFrames(role);
      var last: nat := pages.LastPage();
      assert FrameAllocator.IsFree(pages.pageMap[..], last);
      assert last in FreeFrames(role);
      assert |FreeFrames(role) - {last}| + 1 == |FreeFrames(role)|;
    }

    /** pdpeAlloc, pdeAlloc and pteAlloc, which differ in nothing: a new, cleared
        table is linked into entry `i` of table `t`. */
    method TableAlloc(t: nat, i: nat, flags: bv12) returns (ok: bool, n: nat)
      requires Valid() && t < |role| && Inner(role[t]) && i < ENTRIES
      requires !Present(Entry(mem, t, i))
      requires flags & P_BIT != 0 && (ChildRole(role[t], i).owner.Space? ==> flags == 7)
      modifies this`mem, this`role, pages`firstFree, pages.pageMap
      ensures Valid()
      ensures ok ==>
                && n < |role| && old(role)[n].Free? && old(mem)[n] == ZeroFrame()
                && mem == SetEntry(old(mem), t, i, Word(n, flags))
                && role == old(role)[n := ChildRole(old(role)[t], i)]
      ensures ok <==> |FreeFrames(old(role))| > 1
      ensures ok ==> |FreeFrames(role)| + 1 == |FreeFrames(old(role))|
      ensures !ok ==> Exhausted() && mem == old(mem) && role == old(role)
    {
      hide FrameAllocator.IsFreeList, FrameAllocator.FreeSet;
      ok, n := AllocFrame();
      if !ok {
        return;
      }
      mem := mem[n := ZeroFrame()];
      assert mem == old(mem);
      mem := SetEntry(mem, t, i, Word(n, flags));
      LinkKeepsTree(old(mem), old(role), t, i, n, flags);
      TakenFrame(old(role), n, ChildRole(old(role)[t], i));
      role := role[n := ChildRole(role[t], i)];
      assert role == old(role)[n := ChildRole(old(role)[t], i)];
    }

    /** The table that entry `i` of table `t` points to, made if it is missing. */
    method Descend(t: nat, i: nat, flags: bv12) returns (ok: bool, n: nat)
      requires Valid() && t < |role| && Inner(role[t]) && i < ENTRIES
      requires flags & P_BIT != 0 && (ChildRole(role[t], i).owner.Space? ==> flags == 7)
      modifies this`mem, this`role, pages`firstFree, pages.pageMap
      ensures Valid() && Extends(old(role), role) && SameContents(old(mem), mem, old(role))
      ensures SameWalks(old(mem), mem, old(role))
      ensures ok ==>
                && n < |role| && role[n] == ChildRole(old(role)[t], i)
                && Present(Entry(mem, t, i)) && Entry(mem, t, i).page == n
      ensures Present(Entry(old(mem), t, i)) ==> ok && mem == old(mem) && role == old(role)
      ensures !Present(Entry(old(mem), t, i)) ==>
                && (ok <==> |FreeFrames(old(role))| > 1)
                && (ok ==> |FreeFrames(role)| + 1 == |FreeFrames(old(role))| && mem[n] == ZeroFrame())
      ensures forall f: nat, j: nat :: f < |mem| && !old(role)[f].Free? && (f != t || j != i) ==>
                Entry(mem, f, j) == Entry(old(mem), f, j)
      ensures ok ==> Linked(old(mem), mem, old(role), t, i)
      ensures !ok ==> Exhausted()
    {
      var e := mem[t][i];
      if Present(e) {
        assert LinkTyped(mem, role, t, i);
        return true, e.page;
      }
      ok, n := TableAlloc(t, i, flags);
      if ok {
        forall r, p | IsRoot(old(role), r) && ValidPath(p) ensures Walk(mem, r, p) == Walk(old(mem), r, p) {
          LinkKeepsWalks(old(mem), old(role), t, i, n, flags, mem, r, p);
        }
        LinkMissing(old(mem), old(role), t, i, n, flags, mem);
      }
    }

    /** The first three quarters of map_v_p and map_v_p2: the page table that holds
        the leaf entry of `p`, after the missing tables of the way are made. */
    method ReachLeaf(root: nat, p: Path, flags: bv12) returns (ok: bool, t1: nat)
      requires Valid() && IsRoot(role, root) && ValidPath(p)
      requires flags & P_BIT != 0 && (UserPath(p) ==> flags == 7)
      modifies this`mem, this`role, pages`firstFree, pages.pageMap
      ensures Valid() && Extends(old(role), role) && SameContents(old(mem), mem, old(role))
      ensures SameWalks(old(mem), mem, old(role))
      ensures ok ==> HasTables(mem, root, p) && LeafTable(mem, root, p) == t1 < |role|
                     && role[t1].Table? && role[t1].pos.L1?
      ensures HasTables(old(mem), root, p) ==> ok && role == old(role) && mem == old(mem)
      ensures ok <==> |FreeFrames(old(role))| > MissingTables(old(mem), root, p)
      ensures ok ==> |FreeFrames(role)| + MissingTables(old(mem), root, p) == |FreeFrames(old(role))|
      ensures ok ==> TablesMade(old(mem), mem, root, p, 3)
      ensures ok ==> SameMissingBut(old(mem), mem, old(role), root, p)
      ensures !ok ==> Exhausted()
    {
      hide FrameAllocator.IsFreeList, FrameAllocator.FreeSet, Walk, TreeOk, FreeFrames, Linked, TablesMade, Valid,
           Exhausted, Extends, SameContents, SameWalks, SameMissingBut;
      FreeIsFreeFrames();
      ValidTrees();
      ghost var mem0, role0 := mem, role;
      t1 := 0;
      var t3, t2;
      ok, t3 := Descend(root, p.i4, flags);
      if !ok { return; }
      ValidTrees();
      ghost var mem1, role1 := mem, role;
      MadeRootEntry(mem0, mem1, role0, root, p);
      LinkedElsewhere(mem0, mem1, role0, root, p.i4, root, p);
      ExtendedRoot(role0, role1, root);
      ok, t2 := Descend(t3, p.i3, flags);
      ValidTrees();
      ghost var mem2, role2 := mem, role;
      ExtendTwice(mem0, role0, mem1, role1, mem2, role2);
      if !ok { return; }
      MadePdpEntry(mem0, mem1, mem2, role1, root, p);
      LinkedElsewhere(mem1, mem2, role1, t3, p.i3, root, p);
      SameMissingTwice(mem0, mem1, mem2, role0, role1, root, p);
      ExtendedRoot(role1, role2, root);
      ok, t1 := Descend(t2, p.i2, flags);
      ExtendTwice(mem0, role0, mem2, role2, mem, role);
      if !ok { return; }
      MadePdEntry(mem0, mem2, mem, role2, root, p);
      LinkedElsewhere(mem2, mem, role2, t2, p.i2, root, p);
      SameMissingTwice(mem0, mem2, mem, role0, role2, root, p);
    }

    /** map_v_p and map_v_p2: page `p` of the space of `root` is mapped to `pa`,
        and the missing tables of the way are made. */
    method MapPage(root: nat, p: Path, pa: Word, flags: bv12) returns (ok: bool)
      requires Valid() && IsRoot(role, root) && ValidPath(p)
      requires flags & P_BIT != 0 && (UserPath(p) ==> flags == 7)
      modifies this`mem, this`role, pages`firstFree, pages.pageMap
      ensures Valid() && Extends(old(role), role) && SameContents(old(mem), mem, old(role))
      ensures ok ==> WalksUpdated(old(mem), mem, old(role), root, p, Word(pa.page, pa.low | flags))
      ensures !ok ==> Exhausted() && SameWalks(old(mem), mem, old(role))
      ensures ok <==> |FreeFrames(old(role))| > MissingTables(old(mem), root, p)
      ensures ok ==> |FreeFrames(role)| + MissingTables(old(mem), root, p) == |FreeFrames(old(role))|
      ensures HasTables(old(mem), root, p) ==>
                && ok && role == old(role)
                && LeafTable(old(mem), root, p) < |old(mem)|
                && mem == SetEntry(old(mem), LeafTable(old(mem), root, p), p.i1, Word(pa.page, pa.low | flags))
      ensures ok ==> TablesMade(old(mem), mem, root, p, 3) && SameMissingBut(old(mem), mem, old(role), root, p)
    {
      hide FrameAllocator.IsFreeList, FrameAllocator.FreeSet, Walk, HasTables, LeafTable, MissingTables, TablesMade,
           SameMissingBut;
      var t1;
      ok, t1 := ReachLeaf(root, p, flags);
      if !ok { return; }
      var w := Word(pa.page, pa.low | flags);
      LeafWriteKeepsTree(mem, role, t1, p.i1, w);
      LeafWriteUpdates(mem, role, root, p, w);
      LeafWriteKeepsMade(old(mem), mem, role, t1, p.i1, w, root, p);
      LeafWriteElsewhere(old(mem), mem, old(role), role, t1, p.i1, w, root, p);
      mem := SetEntry(mem, t1, p.i1, w);
    }

    /** map_v_p2 on addresses is a finite-map update: the page of `address` is
        translated to `pa` with the present, user and write bits set, and every
        other page as before, whichever tables had to be made. */
    method MapVP2(address: nat, pa: Word) returns (ok: bool)
      requires Valid() && IsRoot(role, cr3) && Canonical(address)
      modifies this`mem, this`role, pages`firstFree, pages.pageMap
      ensures Valid()
      ensures ok ==> forall a: nat :: Canonical(a) && a / TWO12 == address / TWO12 ==>
                Translate(mem, cr3, a) == Word(pa.page, pa.low | P_BIT | U_BIT | W_BIT)
      ensures ok ==> forall a: nat :: Canonical(a) && a / TWO12 != address / TWO12 ==>
                Translate(mem, cr3, a) == Translate(old(mem), cr3, a)
      ensures !ok ==> Exhausted() && forall a: nat :: Translate(mem, cr3, a) == Translate(old(mem), cr3, a)
    {
      hide FrameAllocator.IsFreeList, FrameAllocator.FreeSet, Walk, PathOf;
      assert pa.low | P_BIT | U_BIT | W_BIT == pa.low | 7;
      ok := MapPage(cr3, PathOf(address), pa, 7);
      forall a: nat | Canonical(a) ensures PathOf(a) == PathOf(address) <==> a / TWO12 == address / TWO12 {
        SamePathSamePage(a, address);
      }
    }

    /** The entry that a walk along `p` uses at the given level, if the walk gets there. */
    method EntryOnWay(r: nat, p: Path, level: nat) returns (found: bool, t: nat, i: nat)
      requires Valid() && IsRoot(role, r) && ValidPath(p) && 1 <= level <= 4
      ensures found ==> t < |role| && role[t].Table? && i < ENTRIES && Present(Entry(mem, t, i))
      ensures found && level == 1 ==> HasTables(mem, r, p) && t == LeafTable(mem, r, p) && i == p.i1
      ensures level == 1 ==> (found <==> Present(Walk(mem, r, p)))
    {
      WalkTyped(mem, role, r, p);
      t, i := r, p.i4;
      if !Present(mem[t][i]) { return false, t, i; }
      if level == 4 { return true, t, i; }
      t, i := mem[t][i].page, p.i3;
      if !Present(mem[t][i]) { return false, t, i; }
      if level == 3 { return true, t, i; }
      t, i := mem[t][i].page, p.i2;
      if !Present(mem[t][i]) { return false, t, i; }
      if level == 2 { return true, t, i; }
      t, i := mem[t][i].page, p.i1;
      return Present(mem[t][i]), t, i;
    }

    /** The processor marks an entry it has used: accessed, and dirty after a store. */
    method Mark(r: nat, p: Path, level: nat, bits: bv12)
      requires Valid() && IsRoot(role, r) && ValidPath(p) && 1 <= level <= 4 && MarkBits(bits)
      modifies this`mem
      ensures Valid() && SameContents(old(mem), mem, role) && SameWalksButMarks(old(mem), mem, role)
      ensures SameMissing(old(mem), mem, role)
      ensures level == 1 && Present(Walk(old(mem), r, p)) ==>
                && LeafTable(old(mem), r, p) < |role| && role[LeafTable(old(mem), r, p)].Table?
                && role[LeafTable(old(mem), r, p)].pos.L1?
                && LeafTable(old(mem), r, p) < |old(mem)| && p.i1 < |old(mem)[LeafTable(old(mem), r, p)]|
                && mem == Marked(old(mem), LeafTable(old(mem), r, p), p.i1, bits)
                && WalksUpdated(old(mem), mem, role, r, p,
                                Word(Walk(old(mem), r, p).page, Walk(old(mem), r, p).low | bits))
    {
      hide FrameAllocator.IsFreeList, FrameAllocator.FreeSet, Walk, HasTables, LeafTable, MarkBits,
           WalksUpdated, SameWalksButMarks, SameContents, LinkTyped, MissingTables;
      var found, t, i := EntryOnWay(r, p, level);
      if found {
        MarkEffect(mem, role, t, i, bits);
        MarkKeepsMissing(mem, role, t, i, bits);
        if level == 1 {
          MarkLeaf(mem, role, r, p, bits);
        }
        mem := Marked(mem, t, i, bits);
      } else {
        NothingMarked(mem, role);
      }
    }
  }
}
