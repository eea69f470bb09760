/** Start-up (sys/main.c, sys/mmu.c): the kernel's first page tables, and the
    mapping of all physical memory at 0xffffffff80000000. */
module Boot {
  import opened Paging
  import opened Spaces
  import opened Mmu
  import opened Kernel
  import opened Tables
  import Runs
  import FrameAllocator

  const KERNMEM: nat := 0xffff_ffff_8020_0000

  /** There is one space, and it maps nothing for users. */
  ghost predicate OnlyRoot(mem: Memory, role: Roles, r: nat) {
    && IsRoot(role, r)
    && (forall q :: IsRoot(role, q) ==> q == r)
    && (forall p :: UserPath(p) ==> Walk(mem, r, p) == ZERO && MissingTables(mem, r, p) == 3)
  }

  /** A translation changed in the kernel half leaves the users' half empty. */
  lemma OnlyRootKept(mem: Memory, mem': Memory, role: Roles, role': Roles, r: nat, p: Path, w: Word)
    requires OnlyRoot(mem, role, r) && Extends(role, role') && !UserPath(p)
    requires WalksUpdated(mem, mem', role, r, p, w) && SameMissingBut(mem, mem', role, r, p)
    ensures OnlyRoot(mem', role', r)
  {
    hide Walk, MissingTables;
    forall q | IsRoot(role', q) ensures q == r { assert IsRoot(role, q); }
    forall v | UserPath(v) ensures Walk(mem', r, v) == ZERO {
      assert ValidPath(v);
    }
  }

  /** The tables missing on the way to the place of frame `g` when the frames below `n`
      have been mapped at theirs.  The table of the kernel image, which kernmemMap makes,
      is that of the frames 512 to 1023. */
  function DirectMissing(n: nat, g: nat): nat {
    if g / ENTRIES == 1 || g / ENTRIES * ENTRIES < n then 0
    else if g >= 0x4_0000 && n <= 0x4_0000 then 2
    else 1
  }

  ghost predicate TablesBelow(mem: Memory, r: nat, n: nat) {
    forall g: nat :: g < 0x8_0000 ==> MissingTables(mem, r, DirectPath(g)) == DirectMissing(n, g)
  }

  /** The tables that phy2vir makes for `n` frames. */
  function TablesFor(n: nat): nat {
    var blocks := (n + ENTRIES - 1) / ENTRIES;
    (if blocks > 1 then blocks - 1 else blocks) + if n > 0x4_0000 then 1 else 0
  }

  lemma TablesForNext(n: nat)
    ensures TablesFor(n + 1) == TablesFor(n) + DirectMissing(n, n)
  {
    var q, k := n / ENTRIES, n % ENTRIES;
    assert n == q * ENTRIES + k;
    assert (n + ENTRIES) / ENTRIES == q + 1;
    assert (n + ENTRIES - 1) / ENTRIES == if k == 0 then q else q + 1;
  }

  lemma StepTables(mem: Memory, mem': Memory, r: nat, n: nat)
    requires n < 0x8_0000 && TablesBelow(mem, r, n) && TablesMade(mem, mem', r, DirectPath(n), 3)
    ensures TablesBelow(mem', r, n + 1)
  {
    hide MissingTables;
    forall g: nat | g < 0x8_0000 ensures MissingTables(mem', r, DirectPath(g)) == DirectMissing(n + 1, g) {
      assert g / 0x4_0000 == g / 512 / 512 && n / 0x4_0000 == n / 512 / 512;
      assert MissingTables(mem, r, DirectPath(g)) == DirectMissing(n, g);
      StepMissing(n, g);
    }
  }

  lemma StepMissing(n: nat, g: nat)
    requires n < 0x8_0000 && g < 0x8_0000
    ensures StillMissing(DirectPath(n), DirectPath(g), 3, DirectMissing(n, g)) == DirectMissing(n + 1, g)
  {
    assert g / 0x4_0000 == g / 512 / 512 && n / 0x4_0000 == n / 512 / 512;
    SameBlock(n / 512, g / 512);
  }

  lemma SameBlock(a: nat, b: nat)
    ensures a / 512 == b / 512 && a % 512 == b % 512 <==> a == b
  { }

  /** A new, empty root. */
  method FirstRoot(m: Machine) returns (ok: bool)
    requires m.Valid() && forall q :: !IsRoot(m.role, q)
    modifies m`mem, m`role, m`cr3, m.pages`firstFree, m.pages.pageMap
    ensures m.Valid() && (!ok ==> m.Exhausted())
    ensures ok ==> OnlyRoot(m.mem, m.role, m.cr3) && m.mem[m.cr3] == ZeroFrame()
    ensures Runs.Paid(old(m.role), m.role, 1, ok)
  {
    hide FrameAllocator.IsFreeList, FrameAllocator.FreeSet, Walk, FreeFrames;
    var root;
    ok, root := AllocRoot(m);
    if !ok { return; }
    m.mem := m.mem[root := ZeroFrame()];
    assert m.mem == old(m.mem);
    m.cr3 := root;
    forall p | UserPath(p) ensures Walk(m.mem, root, p) == ZERO && MissingTables(m.mem, root, p) == 3 {
      EmptyRootWalk(m.mem, root, p);
    }
  }

  /** The three tables of kernmemMap under a new root. */
  method FirstTables(m: Machine) returns (ok: bool, pte: nat)
    requires m.Valid() && forall q :: !IsRoot(m.role, q)
    modifies m`mem, m`role, m`cr3, m.pages`firstFree, m.pages.pageMap
    ensures m.Valid() && (!ok ==> m.Exhausted())
    ensures ok ==> OnlyRoot(m.mem, m.role, m.cr3) && EarlyTable(m.mem, m.role, m.cr3, pte)
    ensures ok ==> TablesBelow(m.mem, m.cr3, 0)
    ensures Runs.Paid(old(m.role), m.role, 4, ok)
  {
    hide FrameAllocator.IsFreeList, FrameAllocator.FreeSet, Walk, PathOf, GetIndex, TreeOk, FreeFrames, TablesMade,
         Linked, MissingTables, TablesBelow;
    pte := 0;
    KernmemPath();
    var pdpe, pde;
    ok := FirstRoot(m);
    if !ok { return; }
    var root := m.cr3;
    ghost var mem0, role0, p := m.mem, m.role, PathOf(KERNMEM);
    ok, pdpe := m.TableAlloc(root, GetIndex(KERNMEM, TWO39), 3);
    if !ok { return; }
    ghost var mem1, role1 := m.mem, m.role;
    LinkMissing(mem0, role0, root, 511, pdpe, 3, mem1);
    MadeRootEntry(mem0, mem1, role0, root, p);
    ok, pde := m.TableAlloc(pdpe, GetIndex(KERNMEM, TWO30), 3);
    if !ok { return; }
    ghost var mem2, role2 := m.mem, m.role;
    LinkMissing(mem1, role1, pdpe, 510, pde, 3, mem2);
    MadePdpEntry(mem0, mem1, mem2, role1, root, p);
    ok, pte := m.TableAlloc(pde, GetIndex(KERNMEM, TWO21), 3);
    if !ok { return; }
    LinkMissing(mem2, role2, pde, 1, pte, 3, m.mem);
    MadePdEntry(mem0, mem2, m.mem, role2, root, p);
    FirstMissing(mem0, m.mem, root);
    forall q | IsRoot(m.role, q) ensures q == root { assert IsRoot(role0, q); }
    forall p | UserPath(p) ensures Walk(m.mem, root, p) == ZERO && MissingTables(m.mem, root, p) == 3 {
      EmptyEntryWalk(m.mem, root, p);
    }
  }

  /** The page table that kernmemMap fills. */
  ghost predicate EarlyTable(mem: Memory, role: Roles, r: nat, pte: nat) {
    && HasTables(mem, r, Path(511, 510, 1, 0)) && pte == LeafTable(mem, r, Path(511, 510, 1, 0)) < |role|
    && role[pte] == Table(Paging.Kernel, L1(511, 510, 1))
  }

  lemma FirstMissing(mem: Memory, mem': Memory, r: nat)
    requires r < |mem| && mem[r] == ZeroFrame() && TablesMade(mem, mem', r, Path(511, 510, 1, 0), 3)
    ensures TablesBelow(mem', r, 0)
  {
    forall g: nat | g < 0x8_0000 ensures MissingTables(mem', r, DirectPath(g)) == DirectMissing(0, g) {
      assert g / 0x4_0000 == g / 512 / 512;
      assert ValidPath(DirectPath(g)) && MissingTables(mem, r, DirectPath(g)) == 3;
    }
  }

  lemma EmptyEntryWalk(mem: Memory, r: nat, p: Path)
    requires Entry(mem, r, p.i4) == ZERO
    ensures Walk(mem, r, p) == ZERO && MissingTables(mem, r, p) == 3
  { }

  lemma EmptyRootWalk(mem: Memory, r: nat, p: Path)
    requires r < |mem| && mem[r] == ZeroFrame() && ValidPath(p)
    ensures Walk(mem, r, p) == ZERO && MissingTables(mem, r, p) == 3
  {
    EmptyEntryWalk(mem, r, p);
  }

  lemma KernmemPath()
    ensures PathOf(KERNMEM) == Path(511, 510, 1, 0)
    ensures GetIndex(KERNMEM, TWO39) == 511 && GetIndex(KERNMEM, TWO30) == 510 && GetIndex(KERNMEM, TWO21) == 1
  { }

  /** Where the early table maps page `k` of the kernel image. */
  function EarlyPath(k: nat): Path { Path(511, 510, 1, k % ENTRIES) }

  /** Of the `n` image pages the last 512, at most, are mapped by the early table. */
  ghost predicate EarlyMapped(mem: Memory, r: nat, base: nat, n: nat) {
    forall k: nat :: n <= k + ENTRIES && k < n ==> Walk(mem, r, EarlyPath(k)) == Word(base + k, 3)
  }

  lemma EarlyPathsDiffer(j: nat, k: nat)
    requires k < j + ENTRIES && j < k
    ensures EarlyPath(j) != EarlyPath(k)
  { }

  /** Mapping one more page. */
  lemma EarlyStep(mem: Memory, mem': Memory, role: Roles, r: nat, base: nat, n: nat)
    requires IsRoot(role, r) && EarlyMapped(mem, r, base, n)
    requires WalksUpdated(mem, mem', role, r, EarlyPath(n), Word(base + n, 3))
    ensures EarlyMapped(mem', r, base, n + 1)
  {
    forall k: nat | n + 1 <= k + ENTRIES && k < n + 1 ensures Walk(mem', r, EarlyPath(k)) == Word(base + k, 3) {
      if k < n { EarlyPathsDiffer(k, n); }
    }
  }

  /** The index in the early table of the image page at `pa`. */
  function ImageIndex(physbase: nat, pa: nat): (i: nat)
    requires physbase <= pa
    ensures i == (pa - physbase) / 4096 % 512
  {
    (pa - physbase) / TWO12 % ENTRIES
  }

  /** When the loop has ended, the image pages that the table has room for are mapped. */
  lemma ImageMapped(mem: Memory, r: nat, physbase: nat, physfree: nat, n: nat, pa: nat)
    requires physbase % TWO12 == 0 && EarlyMapped(mem, r, physbase / TWO12, n)
    requires n == 0 || physbase + (n - 1) * TWO12 < physfree
    requires physfree <= physbase + n * TWO12
    requires pa % TWO12 == 0 && physbase <= pa < physfree <= pa + ENTRIES * TWO12
    ensures Walk(mem, r, Path(511, 510, 1, ImageIndex(physbase, pa))) == Word(pa / TWO12, 3)
  {
    hide Walk;
    var k := (pa - physbase) / TWO12;
    assert pa == physbase + k * TWO12 && pa / TWO12 == physbase / TWO12 + k;
    assert k < n && n <= k + ENTRIES;
    assert Walk(mem, r, EarlyPath(k)) == Word(physbase / TWO12 + k, 3);
  }

  /** One round of the loop of kernmemMap. */
  method MapImagePage(m: Machine, pte: nat, pa: nat, va: nat, ghost base: nat, ghost n: nat)
    requires m.Valid() && OnlyRoot(m.mem, m.role, m.cr3) && EarlyTable(m.mem, m.role, m.cr3, pte)
    requires EarlyMapped(m.mem, m.cr3, base, n) && TablesBelow(m.mem, m.cr3, 0)
    requires pa == (base + n) * TWO12 && va == KERNMEM + n * TWO12
    modifies m`mem
    ensures m.Valid() && OnlyRoot(m.mem, m.role, m.cr3) && EarlyTable(m.mem, m.role, m.cr3, pte)
    ensures EarlyMapped(m.mem, m.cr3, base, n + 1) && TablesBelow(m.mem, m.cr3, 0)
  {
    hide FrameAllocator.IsFreeList, FrameAllocator.FreeSet, Walk, PathOf, GetIndex, MissingTables, DirectMissing;
    var i := GetIndex(va, TWO12);
    EarlyIndex(n);
    var w := Word(pa / TWO12, 3);
    ghost var mem0, p := m.mem, EarlyPath(n);
    LeafWriteKeepsTree(m.mem, m.role, pte, i, w);
    LeafWriteUpdates(m.mem, m.role, m.cr3, p, w);
    m.mem := SetEntry(m.mem, pte, i, w);
    LeafWriteElsewhere(mem0, mem0, m.role, m.role, pte, i, w, m.cr3, p);
    OnlyRootKept(mem0, m.mem, m.role, m.role, m.cr3, p, w);
    TablesStay(mem0, m.role, m.cr3, p, pte, i, w);
    EarlyStep(mem0, m.mem, m.role, m.cr3, base, n);
    forall g: nat | g < 0x8_0000 ensures MissingTables(m.mem, m.cr3, DirectPath(g)) == DirectMissing(0, g) {
      DirectPathIsPathOf(g);
      LeafWriteMissing(mem0, m.role, pte, i, w, m.cr3, DirectPath(g));
    }
  }

  /** kernmemMap: the kernel image mapped through the one page table.  An image of
      more than 512 pages wraps around in it, and its last 512 pages stay mapped; the
      tables are in order all the same. */
  method KernmemMap(m: Machine, physbase: nat, physfree: nat) returns (ok: bool)
    requires m.Valid() && physbase % TWO12 == 0 && forall q :: !IsRoot(m.role, q)
    modifies m`mem, m`role, m`cr3, m.pages`firstFree, m.pages.pageMap
    ensures m.Valid() && (!ok ==> m.Exhausted())
    ensures ok ==> OnlyRoot(m.mem, m.role, m.cr3) && TablesBelow(m.mem, m.cr3, 0)
    ensures ok ==> forall pa: nat :: pa % 4096 == 0 && physbase <= pa < physfree <= pa + 512 * 4096 ==>
              Walk(m.mem, m.cr3, Path(511, 510, 1, ImageIndex(physbase, pa))) == Word(pa / 4096, 3)
    ensures Runs.Paid(old(m.role), m.role, 4, ok)
  {
    hide FrameAllocator.IsFreeList, FrameAllocator.FreeSet, Walk, PathOf, TreeOk, OnlyRoot, EarlyTable, TablesBelow,
         FreeFrames;
    var pte;
    ok, pte := FirstTables(m);
    if !ok { return; }
    ghost var base, n := physbase / TWO12, 0;
    var pa, va := physbase, KERNMEM;
    while pa < physfree
      invariant pa == (base + n) * TWO12 && va == KERNMEM + n * TWO12
      invariant n == 0 || physbase + (n - 1) * TWO12 < physfree
      invariant m.Valid() && OnlyRoot(m.mem, m.role, m.cr3) && EarlyMapped(m.mem, m.cr3, base, n)
      invariant EarlyTable(m.mem, m.role, m.cr3, pte) && TablesBelow(m.mem, m.cr3, 0)
      invariant Runs.Paid(old(m.role), m.role, 4, true)
    {
      MapImagePage(m, pte, pa, va, base, n);
      pa := pa + 0x1000;
      va := va + 0x1000;
      n := n + 1;
    }
    forall pa: nat | pa % 4096 == 0 && physbase <= pa < physfree <= pa + 512 * 4096
      ensures Walk(m.mem, m.cr3, Path(511, 510, 1, ImageIndex(physbase, pa))) == Word(pa / 4096, 3)
    {
      ImageMapped(m.mem, m.cr3, physbase, physfree, n, pa);
    }
  }

  lemma EarlyIndex(n: nat)
    ensures GetIndex(KERNMEM + n * TWO12, TWO12) == n % ENTRIES
  {
    assert (KERNMEM + n * TWO12) / TWO12 == KERNMEM / TWO12 + n;
    assert KERNMEM / TWO12 % 512 == 0;
  }

  /** Writing a page table leaves the tables of a way where they were. */
  lemma TablesStay(mem: Memory, role: Roles, r: nat, p: Path, t: nat, i: nat, w: Word)
    requires TreeOk(mem, role) && IsRoot(role, r) && ValidPath(p) && HasTables(mem, r, p)
    requires t < |role| && role[t].Table? && role[t].pos.L1? && i < ENTRIES
    ensures HasTables(SetEntry(mem, t, i, w), r, p)
    ensures LeafTable(SetEntry(mem, t, i, w), r, p) == LeafTable(mem, r, p)
  {
    WalkTyped(mem, role, r, p);
  }

  /** Frames below `n` are mapped at their place in the kernel half. */
  ghost predicate DirectBelow(mem: Memory, r: nat, n: nat) {
    forall f :: 0 <= f < n ==> Walk(mem, r, DirectPath(f)) == Word(f, 3)
  }

  /** One map_v_p of phy2vir, which makes the tables missing on the way. */
  method MapDirect(m: Machine, f: nat, ghost n: nat) returns (ok: bool)
    requires m.Valid() && OnlyRoot(m.mem, m.role, m.cr3) && DirectBelow(m.mem, m.cr3, n)
    requires TablesBelow(m.mem, m.cr3, n)
    requires f < 0x8_0000 && n <= 0x8_0000
    modifies m`mem, m`role, m.pages`firstFree, m.pages.pageMap
    ensures m.Valid() && (!ok ==> m.Exhausted())
    ensures ok ==> OnlyRoot(m.mem, m.role, m.cr3) && DirectBelow(m.mem, m.cr3, n)
    ensures ok ==> Walk(m.mem, m.cr3, DirectPath(f)) == Word(f, 3)
    ensures ok && f == n ==> TablesBelow(m.mem, m.cr3, n + 1)
    ensures Runs.Paid(old(m.role), m.role, DirectMissing(n, f), ok)
  {
    hide FrameAllocator.IsFreeList, FrameAllocator.FreeSet, Walk, PathOf, TreeOk, FreeFrames, MissingTables, TablesMade,
         DirectMissing;
    ghost var mem0, role0 := m.mem, m.role;
    DirectPathIsPathOf(f);
    ok := m.MapPage(m.cr3, PathOf(0xffff_ffff_8000_0000 + f * TWO12), Word(f, 0), 3);
    if !ok { return; }
    OnlyRootKept(mem0, m.mem, role0, m.role, m.cr3, DirectPath(f), Word(f, 3));
    if f == n { StepTables(mem0, m.mem, m.cr3, n); }
    forall g | 0 <= g < n ensures Walk(m.mem, m.cr3, DirectPath(g)) == Word(g, 3) {
      DirectPathIsPathOf(g);
      if DirectPath(g) == DirectPath(f) { DirectPathInjective(f, g); }
    }
  }

  /** phy2vir: afterwards the kernel mapping is complete, whatever the single early
      table held, and the machine is ready for its first process. */
  method Phy2Vir(m: Machine, limit: nat) returns (ok: bool)
    requires m.Valid() && OnlyRoot(m.mem, m.role, m.cr3) && limit / TWO12 == m.pages.LastPage()
    requires TablesBelow(m.mem, m.cr3, 0)
    modifies m`mem, m`role, m.pages`firstFree, m.pages.pageMap
    ensures !ok ==> m.Exhausted()
    ensures ok ==> Neat(m) && OnlyRoot(m.mem, m.role, m.cr3)
    ensures ok ==> DirectBelow(m.mem, m.cr3, |m.mem|)
    ensures Runs.Paid(old(m.role), m.role, TablesFor(limit / TWO12 + 1), ok)
  {
    hide FrameAllocator.IsFreeList, FrameAllocator.FreeSet, Walk, OnlyRoot, TablesBelow, TreeOk, Runs.Paid, TablesFor;
    ghost var role0, pages := m.role, limit / TWO12 + 1;
    NothingPaid(m);
    var f := 0;
    while f * TWO12 <= limit
      invariant 0 <= f <= pages
      invariant m.Valid() && pages == |m.mem|
      invariant OnlyRoot(m.mem, m.role, m.cr3) && DirectBelow(m.mem, m.cr3, f) && TablesBelow(m.mem, m.cr3, f)
      invariant Runs.Paid(role0, m.role, TablesFor(f), true)
      decreases pages - f
    {
      ghost var role1 := m.role;
      ok := MapDirect(m, f, f);
      Runs.PaidBoth(role0, role1, m.role, TablesFor(f), DirectMissing(f, f), ok);
      TablesForNext(f);
      f := f + 1;
      if !ok {
        CostsMore(role0, m.role, f, pages);
        return;
      }
    }
    ghost var role1 := m.role;
    ok := MapDirect(m, 0xb8, f);
    Runs.PaidBoth(role0, role1, m.role, TablesFor(f), 0, ok);
    if ok {
      BootIsSound(m.mem, m.role, m.cr3);
    }
  }

  lemma NothingPaid(m: Machine)
    requires m.Valid()
    ensures Runs.Paid(m.role, m.role, TablesFor(0), true) && |m.mem| == m.pages.LastPage() + 1
  {
    m.FreeIsFreeFrames();
  }

  /** What fails on the way to `f` frames fails on the way to more. */
  lemma CostsMore(before: Roles, after: Roles, f: nat, n: nat)
    requires f <= n && Runs.Paid(before, after, TablesFor(f), false)
    ensures Runs.Paid(before, after, TablesFor(n), false)
  {
    TablesForGrows(f, n);
  }

  lemma {:induction false} TablesForGrows(f: nat, n: nat)
    requires f <= n
    ensures TablesFor(f) <= TablesFor(n)
    decreases n
  {
    if f == n {
    } else {
      TablesForGrows(f, n - 1);
      TablesForNext(n - 1);
    }
  }

  lemma BootIsSound(mem: Memory, role: Roles, r: nat)
    requires OnlyRoot(mem, role, r) && |mem| == |role| <= 0x8_0000 && DirectBelow(mem, r, |mem|)
    ensures LeafOk(mem, role) && KernelOk(mem, role) && IsRoot(role, r) && Tight(mem, role)
  {
    hide Walk, MissingTables;
    forall q, v | IsRoot(role, q) && UserPath(v) ensures MissingTables(mem, q, v) == MissingFor(PagesOf(mem, q), v) {
      assert PagesOf(mem, r) == iset{};
    }
    forall q, f | IsRoot(role, q) && 0 <= f < |role| ensures DirectMapped(mem, q, f) {
      assert Walk(mem, r, DirectPath(f)) == Word(f, 3);
    }
  }

  /** Frame `f` is between the memory region's base and the kernel image, or behind the
      page array. */
  predicate FreeAtStart(f: nat, physbase: nat, physfree: nat, base: nat, limit: nat) {
    base / TWO12 <= f < physbase / TWO12 || (physfree + 8 * (limit / TWO12)) / TWO12 < f
  }

  /** How many frames that is. */
  function FreeCount(physbase: nat, physfree: nat, base: nat, limit: nat): nat
    requires (physfree + 8 * (limit / TWO12)) / TWO12 + 1 <= limit / TWO12
  {
    (if base / TWO12 < physbase / TWO12 then physbase / TWO12 - base / TWO12 else 0)
    + (limit / TWO12 - (physfree + 8 * (limit / TWO12)) / TWO12)
  }

  /** The memory part of start(): from the memory map to the first sound state.  It gets
      there exactly when there are more free frames than page tables to make. */
  method Start(mem: Memory, physbase: nat, physfree: nat, base: nat, limit: nat) returns (ok: bool, m: Machine)
    requires physbase <= physfree && physbase % TWO12 == 0 && limit < 0x8000_0000
    requires (physfree + 8 * (limit / TWO12)) / TWO12 + 1 <= limit / TWO12
    requires |mem| == limit / TWO12 + 1 && Shape(mem)
    requires forall f :: 0 <= f < |mem| && FreeAtStart(f, physbase, physfree, base, limit) ==> mem[f] == ZeroFrame()
    ensures fresh(m) && fresh(m.pages) && fresh(m.pages.pageMap)
    ensures ok ==> Neat(m) && OnlyRoot(m.mem, m.role, m.cr3) && DirectBelow(m.mem, m.cr3, |m.mem|)
    ensures ok ==> Refines(m.mem, m.role, [], [])
    ensures ok <==> FreeCount(physbase, physfree, base, limit) > 4 + TablesFor(limit / TWO12 + 1)
    ensures ok ==> |FreeFrames(m.role)| + 4 + TablesFor(limit / TWO12 + 1) == FreeCount(physbase, physfree, base, limit)
    ensures !ok ==> m.Exhausted()
  {
    hide FrameAllocator.IsFreeList, FrameAllocator.FreeSet, Walk, OnlyRoot, TablesBelow, TreeOk, FreeFrames, TablesFor,
         FrameAllocator.Pages;
    var end;
    m, end := PowerOn(mem, physbase, physfree, base, limit);
    ok := KernmemMap(m, physbase, end);
    if !ok { return; }
    ok := Phy2Vir(m, limit);
  }

  /** The page list is built, and no space exists. */
  method PowerOn(mem: Memory, physbase: nat, physfree: nat, base: nat, limit: nat) returns (m: Machine, end: nat)
    requires physbase <= physfree && limit < 0x8000_0000
    requires (physfree + 8 * (limit / TWO12)) / TWO12 + 1 <= limit / TWO12
    requires |mem| == limit / TWO12 + 1 && Shape(mem)
    requires forall f :: 0 <= f < |mem| && FreeAtStart(f, physbase, physfree, base, limit) ==> mem[f] == ZeroFrame()
    ensures fresh(m) && fresh(m.pages) && fresh(m.pages.pageMap)
    ensures m.Valid() && m.pages.LastPage() == limit / TWO12 && forall q :: !IsRoot(m.role, q)
    ensures |FreeFrames(m.role)| == FreeCount(physbase, physfree, base, limit)
  {
    hide FrameAllocator.IsFreeList, FrameAllocator.FreeSet, FrameAllocator.Pages, FreeFrames, TreeOk,
         FreeAtStart, FreeCount;
    var pages := new FrameAllocator.PageList();
    end := pages.InitPageTable(physbase, physfree, base, limit);
    StartPages(physbase, physfree, base, limit, end);
    m := new Machine(pages, mem);
    m.FreeIsFreeFrames();
  }

  /** The two runs of free pages, and their number. */
  lemma StartPages(physbase: nat, physfree: nat, base: nat, limit: nat, end: nat)
    requires physbase <= physfree && (physfree + 8 * (limit / TWO12)) / TWO12 + 1 <= limit / TWO12
    requires end == ((physfree + 8 * (limit / TWO12)) / TWO12 + 1) * TWO12
    ensures var free := FrameAllocator.Pages(base / TWO12, physbase / TWO12 - 1)
                        + FrameAllocator.Pages(end / TWO12, limit / TWO12);
            && |free| == FreeCount(physbase, physfree, base, limit)
            && forall f :: f in free ==> FreeAtStart(f, physbase, physfree, base, limit)
  {
    assert end / TWO12 == (physfree + 8 * (limit / TWO12)) / TWO12 + 1;
    assert physbase / TWO12 <= (physfree + 8 * (limit / TWO12)) / TWO12;
    FrameAllocator.PagesCount(base / TWO12, physbase / TWO12 - 1, end / TWO12, limit / TWO12);
  }

  /** From power-on: whatever a run of user and kernel operations shows, the machine
      whose fork copies at once shows, too.  The run comes to its end exactly when the free
      frames outnumber what start-up and the run cost. */
  method StartAndRun(mem: Memory, physbase: nat, physfree: nat, base: nat, limit: nat, ops: seq<Op>)
    returns (ok: bool, m: Machine, obs: seq<Observation>)
    requires physbase <= physfree && physbase % TWO12 == 0 && limit < 0x8000_0000
    requires (physfree + 8 * (limit / TWO12)) / TWO12 + 1 <= limit / TWO12
    requires |mem| == limit / TWO12 + 1 && Shape(mem)
    requires forall f :: 0 <= f < |mem| && FreeAtStart(f, physbase, physfree, base, limit) ==> mem[f] == ZeroFrame()
    requires ValidOps(0, ops) && SafeRun([], [], ops)
    ensures obs <= EagerRun([], ops).1
    ensures ok ==> obs == EagerRun([], ops).1 && Sound(m)
    ensures ok <==>
            FreeCount(physbase, physfree, base, limit) > 4 + TablesFor(limit / TWO12 + 1) + Runs.RunCost([], [], ops)
    ensures !ok ==> m.Exhausted()
  {
    hide FrameAllocator.IsFreeList, FrameAllocator.FreeSet, Walk, OnlyRoot, TablesBelow, TreeOk, FreeFrames, TablesFor,
         FreeCount, KernelOk, LeafOk, Refines, Tight, Machine.Valid, Machine.Exhausted, EagerRun, Runs.RunCost, SafeRun,
         DirectBelow, Owns, Isolated;
    var spaces;
    obs := [];
    ok, m := Start(mem, physbase, physfree, base, limit);
    if !ok { return; }
    OwnsNothing(m.mem);
    ok, spaces, obs := Runs.Execute(m, [], ops, [], []);
  }
}
