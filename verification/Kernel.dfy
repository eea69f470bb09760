/** The kernel entry points that change address spaces: kmalloc and setUserSpace
    (sys/mmu.c), the copy-on-write branch of the page fault handler (sys/page.c), and
    the address space that fork makes (sys/syscall.c). */
module Kernel {
  import opened Paging
  import opened Spaces
  import opened Mmu
  import opened Fork
  import opened Tables
  import FrameAllocator

  /** All that the kernel keeps true between two of its steps. */
  ghost predicate Sound(m: Machine)
    reads m, m.pages, m.pages.pageMap
  {
    m.Valid() && LeafOk(m.mem, m.role) && KernelOk(m.mem, m.role) && IsRoot(m.role, m.cr3)
  }

  /** Sound, and without a table too many: as long as frames do not run out. */
  ghost predicate Neat(m: Machine)
    reads m, m.pages, m.pages.pageMap
  {
    Sound(m) && Tight(m.mem, m.role)
  }

  // -------------------------------------------------------- kernel mapping

  /** Mapping a frame once more at its own place keeps the kernel mapping. */
  lemma DirectRemap(mem: Memory, mem': Memory, role: Roles, r: nat, f: nat, low: bv12)
    requires KernelOk(mem, role) && f < |role| && low & W_BIT != 0 && low & P_BIT != 0
    requires WalksUpdated(mem, mem', role, r, DirectPath(f), Word(f, low))
    ensures KernelOk(mem', role)
  {
    forall q, g | IsRoot(role, q) && 0 <= g < |role| ensures DirectMapped(mem', q, g) {
      assert DirectMapped(mem, q, g);
      assert ValidPath(DirectPath(g)) && ValidPath(DirectPath(f));
      if DirectPath(g) == DirectPath(f) { DirectPathInjective(f, g); }
    }
  }

  lemma KernelKept(mem: Memory, mem': Memory, role: Roles, role': Roles)
    requires KernelOk(mem, role) && |role'| == |role|
    requires forall q :: IsRoot(role', q) ==> IsRoot(role, q)
    requires forall q, p :: IsRoot(role, q) && ValidPath(p) && !UserPath(p) ==> Walk(mem', q, p) == Walk(mem, q, p)
    ensures KernelOk(mem', role')
  {
    forall q, g | IsRoot(role', q) && 0 <= g < |role'| ensures DirectMapped(mem', q, g) {
      assert DirectMapped(mem, q, g);
      assert ValidPath(DirectPath(g)) && !UserPath(DirectPath(g));
    }
  }

  /** Roots, entry 511 included, and the tables of the spaces keep their contents. */
  ghost predicate SameUserTables(mem: Memory, mem': Memory, role: Roles) {
    |mem'| == |mem| == |role| &&
    forall g :: 0 <= g < |role| && role[g].Table? && role[g].owner.Space? ==> mem'[g] == mem[g]
  }

  /** What kmalloc leaves: the frame `f` in the kernel's hands, zero, mapped at its place;
      no user page moves, nothing in use but kernel page tables changes. */
  ghost predicate KernelFrame(mem: Memory, role: Roles, mem': Memory, role': Roles, r: nat, f: nat, low: bv12) {
    && |mem'| == |mem| == |role|
    && f < |role| && role[f].Free? && role' == role[f := Kern]
    && mem'[f] == ZeroFrame()
    && Walk(mem', r, DirectPath(f)) == Word(f, low)
    && SameUserWalks(mem, mem', role)
    && SameContents(mem, mem', role)
    && SameUserTables(mem, mem', role)
  }

  /** The first half of kmalloc: a frame mapped once more at its place. */
  method MapKernelFrame(m: Machine) returns (ok: bool, f: nat)
    requires Sound(m)
    modifies m`mem, m`role, m.pages`firstFree, m.pages.pageMap
    ensures Sound(m)
    ensures ok <==> |FreeFrames(old(m.role))| > 1
    ensures ok ==> |FreeFrames(m.role)| + 1 == |FreeFrames(old(m.role))|
    ensures ok ==> KernelFrame(old(m.mem), old(m.role), m.mem, m.role, m.cr3, f, 7)
    ensures ok && Tight(old(m.mem), old(m.role)) ==> Tight(m.mem, m.role)
    ensures !ok ==> m.Exhausted() && m.mem == old(m.mem) && m.role == old(m.role)
  {
    hide FrameAllocator.IsFreeList, FrameAllocator.FreeSet, Walk, HasTables, LeafTable, FreeFrames, MissingTables,
         Tight, TablesMade, SameMissingBut;
    ok, f := m.AllocFrame();
    if !ok { return; }
    ghost var mem0, role1 := m.mem, m.role;
    assert forall q :: IsRoot(role1, q) <==> IsRoot(old(m.role), q);
    KernelKept(mem0, mem0, old(m.role), role1);
    assert DirectMapped(mem0, m.cr3, f) && ValidPath(DirectPath(f)) && !UserPath(DirectPath(f));
    LeafEntry(mem0, role1, m.cr3, DirectPath(f));
    LeafTableTyped(mem0, role1, m.cr3, DirectPath(f));
    ok := m.MapPage(m.cr3, DirectPath(f), Word(f, 0), 7);
    DirectRemap(mem0, m.mem, role1, m.cr3, f, 7);
    assert KernelOnly(mem0, old(m.role), m.mem, m.role);
    KernelOnlyKeepsLeaves(mem0, old(m.role), m.mem, m.role);
    if Tight(mem0, old(m.role)) {
      KernelMapKeepsTight(mem0, old(m.role), m.mem, role1, m.cr3, DirectPath(f));
    }
  }

  /** A page mapped in the kernel half is no concern of the users' tables. */
  lemma KernelMapKeepsTight(mem: Memory, role: Roles, mem': Memory, role': Roles, r: nat, p: Path)
    requires Tight(mem, role) && SameMissingBut(mem, mem', role', r, p) && !UserPath(p)
    requires SameUserWalks(mem, mem', role) && forall q :: IsRoot(role', q) <==> IsRoot(role, q)
    ensures Tight(mem', role')
  {
    hide Walk, MissingTables;
    TightStill(mem, role, mem', role');
  }

  /** kmalloc: one frame, cleared through its mapping, which leaves the mapping's entry
      accessed and dirty.  No table is made and no root is written. */
  method Kmalloc(m: Machine) returns (ok: bool, f: nat)
    requires Sound(m)
    modifies m`mem, m`role, m.pages`firstFree, m.pages.pageMap
    ensures Sound(m)
    ensures ok <==> |FreeFrames(old(m.role))| > 1
    ensures ok ==> |FreeFrames(m.role)| + 1 == |FreeFrames(old(m.role))|
    ensures ok ==> KernelFrame(old(m.mem), old(m.role), m.mem, m.role, m.cr3, f, 7 | ACCESSED | DIRTY)
    ensures ok && Tight(old(m.mem), old(m.role)) ==> Tight(m.mem, m.role)
    ensures !ok ==> m.Exhausted() && m.mem == old(m.mem) && m.role == old(m.role)
  {
    hide FrameAllocator.IsFreeList, FrameAllocator.FreeSet, Walk, LeafTable, FreeFrames, Tight, SameMissing;
    ok, f := MapKernelFrame(m);
    if !ok { return; }
    ghost var mem1 := m.mem;
    m.mem := m.mem[f := ZeroFrame()];
    assert m.mem == mem1;
    LeafEntry(mem1, m.role, m.cr3, DirectPath(f));
    LeafTableTyped(mem1, m.role, m.cr3, DirectPath(f));
    m.Mark(m.cr3, DirectPath(f), 1, ACCESSED | DIRTY);
    MarksKeepLeaves(mem1, m.role, m.mem);
    MarksKeepKernel(mem1, m.role, m.mem);
    if Tight(mem1, m.role) { MarksKeepTight(mem1, m.role, m.mem); }
  }

  lemma MarksKeepTight(mem: Memory, role: Roles, mem': Memory)
    requires Tight(mem, role) && SameWalksButMarks(mem, mem', role) && SameMissing(mem, mem', role)
    ensures Tight(mem', role)
  {
    hide Walk, MissingTables, SameMissing, Tight;
    forall q, p | IsRoot(role, q) && UserPath(p) ensures Present(Walk(mem', q, p)) == Present(Walk(mem, q, p)) {
      FlagsDecide(Walk(mem, q, p), Walk(mem', q, p));
    }
    TightStill(mem, role, mem', role);
  }

  // ------------------------------------------------- giving a page to a user

  /** New tables, and translations that change at one user page only, keep the
      kernel mapping. */
  lemma UserMapKeepsKernel(mem: Memory, mem': Memory, role: Roles, role': Roles, r: nat, p: Path, w: Word)
    requires KernelOk(mem, role) && Extends(role, role') && UserPath(p)
    requires SameWalks(mem, mem', role) || WalksUpdated(mem, mem', role, r, p, w)
    requires forall q :: IsRoot(role', q) ==> IsRoot(role, q)
    ensures KernelOk(mem', role')
  {
    KernelKept(mem, mem', role, role');
  }

  /** map_v_p2 for a frame in the hands of the kernel: it becomes the user's. */
  method InstallPage(m: Machine, p: Path, pa: Word) returns (ok: bool)
    requires Sound(m) && UserPath(p)
    requires pa.page < |m.role| && m.role[pa.page].Kern? && Flags(Word(pa.page, pa.low | 7)) == 7
    modifies m`mem, m`role, m.pages`firstFree, m.pages.pageMap
    ensures Sound(m)
    ensures Extends(old(m.role)[pa.page := if ok then Owned(m.cr3, p) else Kern], m.role)
    ensures SameContents(old(m.mem), m.mem, old(m.role))
    ensures forall q :: IsRoot(m.role, q) <==> IsRoot(old(m.role), q)
    ensures ok ==> WalksUpdated(old(m.mem), m.mem, old(m.role), m.cr3, p, Word(pa.page, pa.low | 7))
    ensures ok <==> |FreeFrames(old(m.role))| > MissingTables(old(m.mem), m.cr3, p)
    ensures ok ==> |FreeFrames(m.role)| + MissingTables(old(m.mem), m.cr3, p) == |FreeFrames(old(m.role))|
    ensures HasTables(old(m.mem), m.cr3, p) ==> ok && m.role == old(m.role)[pa.page := Owned(m.cr3, p)]
    ensures ok && Tight(old(m.mem), old(m.role)) ==> Tight(m.mem, m.role)
    ensures !ok ==> m.Exhausted() && SameWalks(old(m.mem), m.mem, old(m.role))
  {
    hide FrameAllocator.IsFreeList, FrameAllocator.FreeSet, Walk, HasTables, LeafTable, FreeFrames, MissingTables,
         Flags, TreeOk, LeafOk, KernelOk, TablesMade, WalksUpdated, SameWalks, Tight, SameMissingBut;
    ghost var mem0, role0, f := m.mem, m.role, pa.page;
    ok := m.MapPage(m.cr3, p, pa, 7);
    ghost var role1 := m.role;
    UserMapKeepsKernel(mem0, m.mem, role0, role1, m.cr3, p, Word(f, pa.low | 7));
    if ok {
      RetagKeepsTree(m.mem, m.role, f, Owned(m.cr3, p));
      RetaggedFrame(m.role, f, Owned(m.cr3, p));
      m.role := m.role[f := Owned(m.cr3, p)];
      InstallKeepsLeaves(mem0, role0, m.mem, m.role, m.cr3, p, Word(f, pa.low | 7));
      KernelKept(m.mem, m.mem, role1, m.role);
      if Tight(mem0, role0) { UserMapKeepsTight(mem0, role0, m.mem, m.role, m.cr3, p, Word(f, pa.low | 7)); }
    } else {
      TablesKeepLeaves(mem0, role0, m.mem, m.role);
    }
  }

  lemma UserMapKeepsTight(mem: Memory, role: Roles, mem': Memory, role': Roles, r: nat, p: Path, w: Word)
    requires Tight(mem, role) && IsRoot(role, r) && UserPath(p) && Flags(w) == 7
    requires TablesMade(mem, mem', r, p, 3) && SameMissingBut(mem, mem', role, r, p)
    requires WalksUpdated(mem, mem', role, r, p, w) && forall q :: IsRoot(role', q) ==> IsRoot(role, q)
    ensures Tight(mem', role')
  {
    hide Walk, Tight, TablesMade, SameMissingBut;
    TightMapped(mem, role, mem', role', r, p);
  }

  lemma TablesKeepLeaves(mem: Memory, role: Roles, mem': Memory, role': Roles)
    requires LeafOk(mem, role) && SameWalks(mem, mem', role) && Extends(role, role')
    requires forall q :: IsRoot(role', q) ==> IsRoot(role, q)
    ensures LeafOk(mem', role')
  {
    hide Walk;
    forall q, v | IsRoot(role', q) && UserPath(v) && Present(Walk(mem', q, v))
      ensures LeafTyped(role', q, v, Walk(mem', q, v))
    {
      assert ValidPath(v) && LeafTyped(role, q, v, Walk(mem, q, v));
    }
  }

  lemma InstallKeepsLeaves(mem: Memory, role: Roles, mem': Memory, role': Roles, r: nat, p: Path, w: Word)
    requires LeafOk(mem, role) && w.page < |role| && role[w.page].Kern? && Extends(role[w.page := Owned(r, p)], role')
    requires Flags(w) == 7 && UserPath(p)
    requires forall q :: IsRoot(role', q) ==> IsRoot(role, q)
    requires WalksUpdated(mem, mem', role, r, p, w)
    ensures LeafOk(mem', role')
  {
    forall q, v | IsRoot(role', q) && UserPath(v) && Present(Walk(mem', q, v))
      ensures LeafTyped(role', q, v, Walk(mem', q, v))
    {
      assert ValidPath(v);
      if q != r || v != p {
        assert LeafTyped(role, q, v, Walk(mem, q, v));
      }
    }
  }

  lemma NoneMissing(mem: Memory, r: nat, p: Path)
    ensures HasTables(mem, r, p) <==> MissingTables(mem, r, p) == 0
  { }

  // ------------------------------------------------------------ page faults

  /** The copy-on-write branch of pageFault: the page at `p` is copied to a new
      frame, the only one taken, which is mapped writable in its place. */
  method CowFault(m: Machine, p: Path) returns (ok: bool)
    requires Sound(m) && UserPath(p)
    requires Present(Walk(m.mem, m.cr3, p)) && CopyOnWrite(Walk(m.mem, m.cr3, p))
    modifies m`mem, m`role, m.pages`firstFree, m.pages.pageMap
    ensures ok ==> Sound(m) && Writable(Walk(m.mem, m.cr3, p))
    ensures ok <==> |FreeFrames(old(m.role))| > 1
    ensures ok ==> |FreeFrames(m.role)| + 1 == |FreeFrames(old(m.role))|
    ensures ok && Tight(old(m.mem), old(m.role)) ==> Tight(m.mem, m.role)
    ensures ok ==> exists f ::
              && Walk(old(m.mem), m.cr3, p).page < |old(m.mem)|
              && Remapped(old(m.mem), old(m.role), m.mem, m.role, m.cr3, p, f,
                          old(m.mem)[Walk(old(m.mem), m.cr3, p).page])
    ensures !ok ==> m.Exhausted()
  {
    hide FrameAllocator.IsFreeList, FrameAllocator.FreeSet, Walk, HasTables, LeafTable, FreeFrames, MissingTables,
         Tight, SameMissing;
    ghost var mem0, role0 := m.mem, m.role;
    var leaf := Walk(m.mem, m.cr3, p);
    assert LeafTyped(m.role, m.cr3, p, leaf);
    var f;
    ok, f := Kmalloc(m);
    if !ok { return; }
    var pa := Walk(m.mem, m.cr3, DirectPath(f));
    ghost var mem1 := m.mem;
    DataWrite(m.mem, m.role, f, m.mem[leaf.page]);
    m.mem := m.mem[f := m.mem[leaf.page]];
    KernelKept(mem1, m.mem, m.role, m.role);
    if Tight(mem1, m.role) { TightStill(mem1, m.role, m.mem, m.role); }
    ghost var mem2, role2 := m.mem, m.role;
    assert LeafOk(mem2, role2);
    LeafEntry(mem2, role2, m.cr3, p);
    NoneMissing(mem2, m.cr3, p);
    assert pa == Word(f, 0x67);
    ok := InstallPage(m, p, pa);
    if ok {
      assert Remapped(mem0, role0, m.mem, m.role, m.cr3, p, f, mem0[leaf.page]);
    }
  }

  /** A frame straight from the allocator mapped at `p`, as the heap branch of
      pageFault and the program loader do. */
  method MapFresh(m: Machine, p: Path) returns (ok: bool)
    requires Sound(m) && UserPath(p)
    modifies m`mem, m`role, m.pages`firstFree, m.pages.pageMap
    ensures Sound(m)
    ensures ok ==> exists f :: Remapped(old(m.mem), old(m.role), m.mem, m.role, m.cr3, p, f, ZeroFrame())
    ensures ok && Tight(old(m.mem), old(m.role)) ==> Tight(m.mem, m.role)
    ensures ok <==> |FreeFrames(old(m.role))| > 1 + MissingTables(old(m.mem), m.cr3, p)
    ensures ok ==> |FreeFrames(m.role)| + 1 + MissingTables(old(m.mem), m.cr3, p) == |FreeFrames(old(m.role))|
    ensures !ok ==> m.Exhausted() && SameWalks(old(m.mem), m.mem, old(m.role))
  {
    hide FrameAllocator.IsFreeList, FrameAllocator.FreeSet, Walk, HasTables, LeafTable, FreeFrames, MissingTables,
         Tight, LeafOk, KernelOk;
    ghost var mem0, role0 := m.mem, m.role;
    var f;
    ok, f := m.AllocFrame();
    if !ok { return; }
    if Tight(mem0, role0) { TightStill(mem0, role0, mem0, m.role); }
    KernelKept(mem0, mem0, role0, m.role);
    assert KernelOnly(mem0, role0, mem0, m.role);
    KernelOnlyKeepsLeaves(mem0, role0, mem0, m.role);
    ok := InstallPage(m, p, Word(f, 0));
    if ok {
      assert Remapped(mem0, role0, m.mem, m.role, m.cr3, p, f, ZeroFrame());
    }
  }

  // -------------------------------------------------------------- new spaces

  /** setUserSpace: a root that holds the kernel half and nothing else. */
  method SetUserSpace(m: Machine) returns (ok: bool, n: nat)
    requires Sound(m)
    modifies m`mem, m`role, m.pages`firstFree, m.pages.pageMap
    ensures Sound(m)
    ensures ok ==> KernelOnly(old(m.mem), old(m.role), m.mem, m.role) && !IsRoot(old(m.role), n) && IsRoot(m.role, n)
    ensures ok && Tight(old(m.mem), old(m.role)) ==> Tight(m.mem, m.role)
    ensures ok <==> |FreeFrames(old(m.role))| > 1
    ensures ok ==> |FreeFrames(m.role)| + 1 == |FreeFrames(old(m.role))|
    ensures !ok ==> m.Exhausted() && m.mem == old(m.mem) && m.role == old(m.role)
  {
    hide FrameAllocator.IsFreeList, FrameAllocator.FreeSet, Walk, HasTables, LeafTable, FreeFrames, Tight,
         MissingTables;
    ghost var mem0, role0 := m.mem, m.role;
    ok, n := m.AllocFrame();
    if !ok { return; }
    assert m.mem[n] == ZeroFrame();
    EmptyRootKeepsTree(m.mem, m.role, n);
    RetaggedFrame(m.role, n, RootRole(n));
    m.role := m.role[n := RootRole(n)];
    assert forall q :: IsRoot(m.role, q) <==> IsRoot(role0, q) || q == n;
    AddEntry(mem0, m.role, n, m.cr3, 511);
    m.mem := SetEntry(m.mem, n, 511, m.mem[m.cr3][511]);
    NewRootDirect(mem0, role0, m.mem, m.role, n, m.cr3);
    assert KernelOnly(mem0, role0, m.mem, m.role);
    KernelOnlyKeepsLeaves(mem0, role0, m.mem, m.role);
    if Tight(mem0, role0) { SpawnKeepsTight(mem0, role0, m.mem, m.role, n); }
  }

  lemma SpawnKeepsTight(mem: Memory, role: Roles, mem': Memory, role': Roles, n: nat)
    requires Tight(mem, role) && SameMissing(mem, mem', role') && KernelOnly(mem, role, mem', role')
    requires n < |mem| && mem[n] == ZeroFrame() && !IsRoot(role, n) && IsRoot(role', n)
    requires forall q :: IsRoot(role', q) ==> IsRoot(role, q) || q == n
    ensures Tight(mem', role')
  {
    hide Walk, Tight;
    forall v | UserPath(v) ensures !Present(Walk(mem', n, v)) && MissingTables(mem', n, v) == 3 {
      assert Entry(mem, n, v.i4) == ZERO && MissingTables(mem, n, v) == 3;
    }
    TightSpawned(mem, role, mem', role', n);
  }

  /** Copying a root entry of the kernel half from root `r` to root `n`. */
  lemma AddEntry(mem: Memory, role: Roles, n: nat, r: nat, i: nat)
    requires TreeOk(mem, role) && IsRoot(role, n) && IsRoot(role, r) && n != r && 510 <= i < ENTRIES
    ensures var mem' := SetEntry(mem, n, i, Entry(mem, r, i));
            && TreeOk(mem', role)
            && (forall q, p :: IsRoot(role, q) && ValidPath(p) ==>
                  Walk(mem', q, p) == if q == n && p.i4 == i then Walk(mem, r, p) else Walk(mem, q, p))
            && SameMissing(mem, mem', role)
  {
    var mem' := SetEntry(mem, n, i, Entry(mem, r, i));
    ShareRootEntryKeepsTree(mem, role, n, r, i);
    forall q, p | IsRoot(role, q) && ValidPath(p)
      ensures Walk(mem', q, p) == if q == n && p.i4 == i then Walk(mem, r, p) else Walk(mem, q, p)
    {
      ShareRootEntry(mem, role, n, r, i, q, p);
    }
    forall q, v | IsRoot(role, q) && UserPath(v) ensures MissingTables(mem', q, v) == MissingTables(mem, q, v) {
      WalkTyped(mem, role, q, v);
    }
  }

  lemma NewRootDirect(mem: Memory, role: Roles, mem': Memory, role': Roles, n: nat, r: nat)
    requires KernelOk(mem, role) && IsRoot(role, r) && |role'| == |role|
    requires forall q :: IsRoot(role', q) ==> IsRoot(role, q) || q == n
    requires forall q, p :: IsRoot(role, q) && ValidPath(p) && p.i4 == 511 ==> Walk(mem', q, p) == Walk(mem, q, p)
    requires forall p :: ValidPath(p) && p.i4 == 511 ==> Walk(mem', n, p) == Walk(mem, r, p)
    ensures KernelOk(mem', role')
  {
    forall q, g | IsRoot(role', q) && 0 <= g < |role'| ensures DirectMapped(mem', q, g) {
      assert ValidPath(DirectPath(g));
      if q == n {
        assert DirectMapped(mem, r, g);
      } else {
        assert DirectMapped(mem, q, g);
      }
    }
  }

  // -------------------------------------------------------------------- fork

  /** The pages of space `r` are no longer its own. */
  function ShareOwned(role: Roles, r: nat): (role': Roles)
    ensures |role'| == |role|
    ensures forall f :: 0 <= f < |role| ==>
              role'[f] == if role[f].Owned? && role[f].root == r then Shared else role[f]
  {
    seq(|role|, f requires 0 <= f < |role| => if role[f].Owned? && role[f].root == r then Shared else role[f])
  }

  lemma ShareKeepsTree(mem: Memory, role: Roles, r: nat)
    requires TreeOk(mem, role)
    ensures TreeOk(mem, ShareOwned(role, r))
  {
    var role' := ShareOwned(role, r);
    forall g, j | 0 <= g < |role| && 0 <= j < ENTRIES ensures LinkTyped(mem, role', g, j) {
      assert LinkTyped(mem, role, g, j);
    }
  }

  lemma ShareKeepsFree(role: Roles, r: nat)
    ensures FreeFrames(ShareOwned(role, r)) == FreeFrames(role)
  {
    var role' := ShareOwned(role, r);
    assert forall f: nat :: f in FreeFrames(role') <==> f in FreeFrames(role);
  }

  /** The loops of fork leave the other spaces, and the kernel half, alone. */
  lemma CopyLeavesOthers(mem: Memory, role: Roles, mem': Memory, role': Roles, p: nat, c: nat, q: nat, v: Path)
    requires TreeOk(mem, role) && IsRoot(role, p) && IsRoot(role, c)
    requires CopyFrame(mem, role, mem', role', c, Space(p), L4) && mem'[p] == mem[p]
    requires IsRoot(role, q) && q != c && ValidPath(v) && (q != p || v.i4 >= 510)
    ensures Walk(mem', q, v) == Walk(mem, q, v)
  {
    assert Entry(mem', q, v.i4) == Entry(mem, q, v.i4);
    WalkKept(mem, mem', role, q, v);
  }

  /** allocatePage for the child's root. */
  method AllocRoot(m: Machine) returns (ok: bool, c: nat)
    requires m.Valid()
    modifies m`role, m.pages`firstFree, m.pages.pageMap
    ensures m.Valid()
    ensures ok ==> c < |m.role| && old(m.role)[c].Free? && m.mem[c] == ZeroFrame()
    ensures ok ==> m.role == old(m.role)[c := RootRole(c)]
    ensures ok ==> forall q :: IsRoot(m.role, q) <==> IsRoot(old(m.role), q) || q == c
    ensures ok <==> |FreeFrames(old(m.role))| > 1
    ensures ok ==> |FreeFrames(m.role)| + 1 == |FreeFrames(old(m.role))|
    ensures !ok ==> m.Exhausted() && m.role == old(m.role)
  {
    hide FrameAllocator.IsFreeList, FrameAllocator.FreeSet, Walk, FreeFrames;
    ghost var role0 := m.role;
    ok, c := m.AllocFrame();
    if !ok { return; }
    EmptyRootKeepsTree(m.mem, m.role, c);
    RetaggedFrame(m.role, c, RootRole(c));
    m.role := m.role[c := RootRole(c)];
    assert m.role == role0[c := RootRole(c)];
  }

  /** The child's root gets the parent's entries 511 and 510. */
  method CopyKernelHalf(m: Machine, p: nat, c: nat)
    requires m.Valid() && IsRoot(m.role, p) && IsRoot(m.role, c) && p != c
    modifies m`mem
    ensures m.Valid() && |m.mem| == |old(m.mem)|
    ensures forall f :: 0 <= f < |m.mem| && f != c ==> m.mem[f] == old(m.mem)[f]
    ensures forall q, v :: IsRoot(m.role, q) && ValidPath(v) ==>
              Walk(m.mem, q, v) == if q == c && v.i4 >= 510 then Walk(old(m.mem), p, v) else Walk(old(m.mem), q, v)
    ensures Entry(m.mem, c, 510) == Entry(m.mem, p, 510) && Entry(m.mem, c, 511) == Entry(m.mem, p, 511)
    ensures SameMissing(old(m.mem), m.mem, m.role)
  {
    hide FrameAllocator.IsFreeList, FrameAllocator.FreeSet, Walk, MissingTables;
    AddEntry(m.mem, m.role, c, p, 511);
    m.mem := SetEntry(m.mem, c, 511, m.mem[p][511]);
    AddEntry(m.mem, m.role, c, p, 510);
    m.mem := SetEntry(m.mem, c, 510, m.mem[p][510]);
  }

  /** The part of forkSyscall that makes the child's address space. */
  method ForkTables(m: Machine) returns (ok: bool, c: nat)
    requires Sound(m)
    modifies m`mem, m`role, m.pages`firstFree, m.pages.pageMap
    ensures ok ==> Sound(m) && Forked(old(m.mem), old(m.role), m.mem, m.role, m.cr3, c)
    ensures ok ==> Entry(m.mem, c, 510) == Entry(m.mem, m.cr3, 510) && Entry(m.mem, c, 511) == Entry(m.mem, m.cr3, 511)
    ensures ok && Tight(old(m.mem), old(m.role)) ==> Tight(m.mem, m.role)
    ensures ok <==> |FreeFrames(old(m.role))| > 1 + CountRoot(old(m.mem), m.cr3, 510)
    ensures ok ==> |FreeFrames(m.role)| + 1 + CountRoot(old(m.mem), m.cr3, 510) == |FreeFrames(old(m.role))|
    ensures !ok ==> m.Exhausted()
  {
    hide FrameAllocator.IsFreeList, FrameAllocator.FreeSet, Walk, Entry, TreeOk, RootCopied, FreeFrames, CountRoot,
         Tight, SameMissing, MissingTables;
    ghost var mem0, role0 := m.mem, m.role;
    var p := m.cr3;
    ok, c := AllocRoot(m);
    if !ok { return; }
    ghost var role1 := m.role;
    ok := CopyRoot(m, p, c);
    if !ok { return; }
    ghost var mem2, role2 := m.mem, m.role;
    forall q, v | IsRoot(role0, q) && ValidPath(v) && (q != p || v.i4 >= 510)
      ensures Walk(mem2, q, v) == Walk(mem0, q, v)
    {
      CopyLeavesOthers(mem0, role1, mem2, role2, p, c, q, v);
    }
    CopyKeepsMissing(mem0, role1, mem2, role2, p, c);
    CopyKernelHalf(m, p, c);
    ghost var mem3 := m.mem;
    ShareKeepsTree(m.mem, m.role, p);
    ShareKeepsFree(m.role, p);
    m.role := ShareOwned(m.role, p);
    assert forall q :: IsRoot(m.role, q) <==> IsRoot(role2, q);
    NewRootDirect(mem0, role0, m.mem, m.role, c, p);
    ForkOutcome(mem0, role0, mem2, m.mem, m.role, p, c);
    ForkKeepsLeaves(mem0, role0, m.mem, m.role, p, c);
    if Tight(mem0, role0) { ForkKeepsTight(mem0, role0, role1, mem2, role2, m.mem, m.role, p, c); }
  }

  /** Fork writes no table of another space but leaf tables. */
  lemma CopyKeepsMissing(mem: Memory, role: Roles, mem': Memory, role': Roles, p: nat, c: nat)
    requires TreeOk(mem, role) && IsRoot(role, p) && IsRoot(role, c)
    requires CopyFrame(mem, role, mem', role', c, Space(p), L4)
    ensures forall q, v :: IsRoot(role, q) && q != c && UserPath(v) ==>
              MissingTables(mem', q, v) == MissingTables(mem, q, v)
  {
    forall q, v | IsRoot(role, q) && q != c && UserPath(v)
      ensures MissingTables(mem', q, v) == MissingTables(mem, q, v)
    {
      WalkTyped(mem, role, q, v);
    }
  }

  lemma ForkKeepsTight(mem0: Memory, role0: Roles, role1: Roles, mem2: Memory, role2: Roles,
                       mem3: Memory, role3: Roles, p: nat, c: nat)
    requires Tight(mem0, role0) && Forked(mem0, role0, mem3, role3, p, c)
    requires role1 == role0[c := RootRole(c)] && forall q :: IsRoot(role1, q) ==> IsRoot(role2, q)
    requires forall q, v :: IsRoot(role1, q) && q != c && UserPath(v) ==>
               MissingTables(mem2, q, v) == MissingTables(mem0, q, v)
    requires forall j :: 0 <= j < 510 ==> RootCopied(mem0, mem2, p, c, j)
    requires SameMissing(mem2, mem3, role2)
    ensures Tight(mem3, role3)
  {
    hide Walk, MissingTables, Tight;
    forall v | UserPath(v) ensures MissingTables(mem3, c, v) == MissingTables(mem0, p, v) {
      assert RootCopied(mem0, mem2, p, c, v.i4);
      assert IsRoot(role1, c);
    }
    forall q, v | IsRoot(role0, q) && UserPath(v)
      ensures MissingTables(mem3, q, v) == MissingTables(mem0, q, v)
      ensures Present(Walk(mem3, q, v)) == Present(Walk(mem0, q, v))
    {
      assert IsRoot(role1, q) && q != c;
    }
    TightForked(mem0, role0, mem3, role3, p, c);
  }

  lemma ForkOutcome(mem0: Memory, role0: Roles, mem2: Memory, mem3: Memory, role3: Roles, p: nat, c: nat)
    requires |mem3| == |mem0| == |role0| == |role3|
    requires IsRoot(role0, p) && c < |role0| && role0[c].Free?
    requires forall q :: IsRoot(role3, q) <==> IsRoot(role0, q) || q == c
    requires forall j :: 0 <= j < 510 ==> RootCopied(mem0, mem2, p, c, j)
    requires forall q, v :: IsRoot(role0, q) && ValidPath(v) && q != p ==> Walk(mem2, q, v) == Walk(mem0, q, v)
    requires forall q, v :: (IsRoot(role0, q) || q == c) && UserPath(v) ==> Walk(mem3, q, v) == Walk(mem2, q, v)
    requires SameContents(mem0, mem3, role0)
    requires forall f :: 0 <= f < |role0| && role0[f].Owned? ==>
               role3[f] == if role0[f].root == p then Shared else role0[f]
    requires forall f :: 0 <= f < |role0| && role0[f].Shared? ==> role3[f].Shared?
    ensures Forked(mem0, role0, mem3, role3, p, c)
  {
    forall v | UserPath(v)
      ensures Walk(mem3, p, v) == ParentLeaf(Walk(mem0, p, v))
      ensures Walk(mem3, c, v) == ChildLeaf(Walk(mem0, p, v))
    {
      assert RootCopied(mem0, mem2, p, c, v.i4);
    }
  }
}
