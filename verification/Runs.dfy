/** Whole runs: user programs loading, storing, forking and growing on top of the
    kernel observe exactly what they would if fork copied all memory at once. */
module Runs {
  import opened Paging
  import opened Spaces
  import opened Mmu
  import opened Fork
  import opened Tables
  import opened Kernel
  import FrameAllocator

  /** An operation that costs `cost` frames: it succeeds exactly when more than that many
      are free, the last page being out of reach, and then takes exactly that many. */
  ghost predicate Paid(before: Roles, after: Roles, cost: nat, ok: bool) {
    && (ok <==> |FreeFrames(before)| > cost)
    && (ok ==> |FreeFrames(after)| + cost == |FreeFrames(before)|)
  }

  /** Two operations, the second of which is not reached when the first fails. */
  lemma PaidBoth(before: Roles, between: Roles, after: Roles, first: nat, second: nat, ok: bool)
    requires Paid(before, between, first, true) && Paid(between, after, second, ok)
    ensures Paid(before, after, first + second, ok)
  { }

  lemma PaidMore(before: Roles, between: Roles, after: Roles, cost: nat, more: nat)
    requires Paid(before, between, cost, false) && cost <= more
    ensures Paid(before, after, more, false)
  { }

  lemma PaidNeither(before: Roles, between: Roles, after: Roles, first: nat, second: nat)
    requires Paid(before, between, first, false)
    ensures Paid(before, after, first + second, false)
  { }

  function StoreCost(leaf: Word): nat { if Present(leaf) && !Writable(leaf) then 1 else 0 }

  /** What an operation costs, as the machine that copies at once sees it: a private copy for
      the first store to a page after a fork; for fork a record, a root, one table for each
      table of the parent, and the child's records; for a new page the page and the tables
      missing on the way to it. */
  ghost function Cost(e: seq<Private>, own: OwnPages, op: Op): nat
    requires |own| == |e| && ValidOp(|e|, op)
  {
    match op
    case Load(_, _, _) => 0
    case Store(pid, page, _, _) => if page in e[pid] && page !in own[pid] then 1 else 0
    case ForkOf(pid, kernelPages) => 2 + TableCount(e[pid].Keys) + kernelPages
    case MapNew(pid, page) => 1 + MissingFor(e[pid].Keys, page)
    case Spawn => 1
    case KernelAlloc(_) => 1
    case Touch(_, _, _, _) => 0
    case KernelWrite(_, _, _, _) => 0
  }

  /** What a run costs. */
  ghost function RunCost(e: seq<Private>, own: OwnPages, ops: seq<Op>): nat
    requires |own| == |e| && ValidOps(|e|, ops) && forall k :: 0 <= k < |e| ==> Pages(e[k])
    decreases |ops|
  {
    if ops == [] then 0 else
    EagerStepPages(e, ops[0]);
    OwnPopulation(e, own, ops[0]);
    Cost(e, own, ops[0]) + RunCost(EagerStep(e, ops[0]).0, OwnAfter(e, own, ops[0]), ops[1..])
  }

  lemma OwnPopulation(e: seq<Private>, own: OwnPages, op: Op)
    requires |own| == |e| && ValidOp(|e|, op)
    ensures |OwnAfter(e, own, op)| == Population(|e|, op)
  { }

  /** A space, a page in it, a fork with three records, a store by the child and two by the
      parent: 1, 4, 8, 1, 1 and 0 frames.  Who is left alone on a page still pays for it. */
  lemma ForkRunCost(p: Path, w: Word)
    requires UserPath(p)
    ensures var ops := [Spawn, MapNew(0, p), ForkOf(0, 3), Store(1, p, 0, w), Store(0, p, 0, w), Store(0, p, 0, w)];
            ValidOps(0, ops) && RunCost([], [], ops) == 15
  {
    hide RunCost, ValidOps, TableCount, MissingFor, Pages;
    var none: Private := imap[];
    var nobody, mine: iset<Path> := iset{}, iset{p};
    var page := none[p := ZeroFrame()];
    var s0, s1 := Store(0, p, 0, w), Store(1, p, 0, w);
    FirstPageCost(p, page);
    StoresCost(p, page, w);
    assert [page] + [page] == [page, page] && [mine][0 := nobody] + [nobody] == [nobody, nobody];
    OneMore([page], [mine], ForkOf(0, 3), [s1, s0, s0], [page, page], [nobody, nobody]);
    assert nobody + iset{p} == mine;
    assert [none][0 := page] == [page] && [nobody][0 := mine] == [mine];
    assert [ForkOf(0, 3)] + [s1, s0, s0] == [ForkOf(0, 3), s1, s0, s0];
    OneMore([none], [nobody], MapNew(0, p), [ForkOf(0, 3), s1, s0, s0], [page], [mine]);
    assert [MapNew(0, p)] + [ForkOf(0, 3), s1, s0, s0] == [MapNew(0, p), ForkOf(0, 3), s1, s0, s0];
    OneMore([], [], Spawn, [MapNew(0, p), ForkOf(0, 3), s1, s0, s0], [none], [nobody]);
    assert [Spawn] + [MapNew(0, p), ForkOf(0, 3), s1, s0, s0] == [Spawn, MapNew(0, p), ForkOf(0, 3), s1, s0, s0];
  }

  /** The three stores after the fork. */
  lemma StoresCost(p: Path, page: Private, w: Word)
    requires UserPath(p) && Pages(page) && p in page
    ensures var s0, s1 := Store(0, p, 0, w), Store(1, p, 0, w);
            ValidOps(2, [s1, s0, s0]) && RunCost([page, page], [iset{}, iset{}], [s1, s0, s0]) == 2
  {
    hide RunCost, ValidOps;
    var nobody, mine: iset<Path> := iset{}, iset{p};
    var s0, s1 := Store(0, p, 0, w), Store(1, p, 0, w);
    var written := page[p := page[p][0 := w]];
    assert written[p][0 := w] == written[p] && written[p := written[p]] == written;
    assert nobody + iset{p} == mine && mine + iset{p} == mine;
    NoMore([written, written], [mine, mine]);
    assert [written, written][0 := written] == [written, written] && [mine, mine][0 := mine] == [mine, mine];
    OneMore([written, written], [mine, mine], s0, [], [written, written], [mine, mine]);
    assert [page, written][0 := written] == [written, written] && [nobody, mine][0 := mine] == [mine, mine];
    assert [s0] + [] == [s0];
    OneMore([page, written], [nobody, mine], s0, [s0], [written, written], [mine, mine]);
    assert [page, page][1 := written] == [page, written] && [nobody, nobody][1 := mine] == [nobody, mine];
    assert [s0] + [s0] == [s0, s0];
    OneMore([page, page], [nobody, nobody], s1, [s0, s0], [page, written], [nobody, mine]);
    assert [s1] + [s0, s0] == [s1, s0, s0];
  }

  lemma FirstPageCost(p: Path, page: Private)
    requires UserPath(p) && page == (imap[])[p := ZeroFrame()]
    ensures TableCount(page.Keys) == 3 && MissingFor(iset{}, p) == 3 && Pages(page) && Pages(imap[])
  {
    TableCountMore(iset{}, p);
    assert page.Keys == iset{} + iset{p};
  }

  lemma NoMore(e: seq<Private>, own: OwnPages)
    requires |own| == |e| && forall k :: 0 <= k < |e| ==> Pages(e[k])
    ensures ValidOps(|e|, []) && RunCost(e, own, []) == 0
  { }

  lemma OneMore(e: seq<Private>, own: OwnPages, op: Op, rest: seq<Op>, e': seq<Private>, own': OwnPages)
    requires |own| == |e| && (forall k :: 0 <= k < |e| ==> Pages(e[k])) && ValidOp(|e|, op)
    requires e' == EagerStep(e, op).0 && own' == OwnAfter(e, own, op) && ValidOps(|e'|, rest)
    ensures ValidOps(|e|, [op] + rest) && |own'| == |e'| && forall k :: 0 <= k < |e'| ==> Pages(e'[k])
    ensures RunCost(e, own, [op] + rest) == Cost(e, own, op) + RunCost(e', own', rest)
  {
    EagerStepPages(e, op);
    OwnPopulation(e, own, op);
    assert ([op] + rest)[1..] == rest;
  }

  lemma RootsOf(mem: Memory, role: Roles, spaces: seq<nat>, e: seq<Private>)
    requires Refines(mem, role, spaces, e)
    ensures |spaces| == |e| && forall k :: 0 <= k < |e| ==> IsRoot(role, spaces[k])
    ensures forall i, j :: 0 <= i < j < |e| ==> spaces[i] != spaces[j]
  { }

  /** The pages a process sees are its pages. */
  lemma PagesSeen(mem: Memory, role: Roles, spaces: seq<nat>, e: seq<Private>, pid: nat)
    requires Refines(mem, role, spaces, e) && pid < |e|
    ensures PagesOf(mem, spaces[pid]) == e[pid].Keys
  {
    hide Walk;
    assert Sees(mem, spaces[pid], e[pid]);
    forall p ensures p in PagesOf(mem, spaces[pid]) <==> p in e[pid].Keys {
      if UserPath(p) { assert SeesPage(mem, spaces[pid], e[pid], p); }
    }
  }

  /** So what a new page, or a fork, takes is read off them. */
  lemma CostSeen(m: Machine, spaces: seq<nat>, e: seq<Private>, pid: nat, page: Path)
    requires Neat(m) && Refines(m.mem, m.role, spaces, e) && pid < |e| && UserPath(page)
    ensures MissingTables(m.mem, spaces[pid], page) == MissingFor(e[pid].Keys, page)
    ensures CountRoot(m.mem, spaces[pid], 510) == TableCount(e[pid].Keys)
  {
    hide MissingTables, CountRoot, TableCount, MissingFor, PagesOf;
    RootsOf(m.mem, m.role, spaces, e);
    PagesSeen(m.mem, m.role, spaces, e, pid);
    TablesAreCounted(m.mem, m.role, spaces[pid]);
  }

  lemma PresentIff(mem: Memory, role: Roles, spaces: seq<nat>, e: seq<Private>, pid: nat, p: Path)
    requires Refines(mem, role, spaces, e) && pid < |e| && UserPath(p)
    ensures Present(Walk(mem, spaces[pid], p)) <==> p in e[pid]
  {
    assert Sees(mem, spaces[pid], e[pid]) && SeesPage(mem, spaces[pid], e[pid], p);
  }

  /** What is under a page of the process is its content. */
  lemma SeenFrame(mem: Memory, role: Roles, spaces: seq<nat>, e: seq<Private>, pid: nat, p: Path)
    returns (content: Frame)
    requires Refines(mem, role, spaces, e) && pid < |e| && UserPath(p) && Present(Walk(mem, spaces[pid], p))
    ensures p in e[pid] && content == e[pid][p] && |content| == ENTRIES
    ensures Walk(mem, spaces[pid], p).page < |mem| && content == mem[Walk(mem, spaces[pid], p).page]
  {
    assert Sees(mem, spaces[pid], e[pid]) && SeesPage(mem, spaces[pid], e[pid], p);
    content := e[pid][p];
  }

  lemma FreeAtLeastOne(m: Machine)
    requires Sound(m)
    ensures TreeOk(m.mem, m.role) && |FreeFrames(m.role)| >= 1
  {
    m.FreeIsFreeFrames();
  }

  /** A user load.  The processor needs present and user bits at all four levels. */
  method Fetch(m: Machine, p: Path, off: nat) returns (obs: Observation)
    requires Sound(m) && UserPath(p) && off < ENTRIES
    ensures var w := Walk(m.mem, m.cr3, p);
            if Present(w) then w.page < |m.mem| && off < |m.mem[w.page]| && obs == Value(m.mem[w.page][off])
            else obs == Fault
  {
    if Present(Walk(m.mem, m.cr3, p)) {
      LeafDecides(m.mem, m.role, m.cr3, p);
      assert LeafTyped(m.role, m.cr3, p, Walk(m.mem, m.cr3, p));
    }
    if Granted(m.mem, m.cr3, p) & (P_BIT | U_BIT) == P_BIT | U_BIT {
      UserBitsPresent(m.mem, m.cr3, p);
      return Value(m.mem[Walk(m.mem, m.cr3, p).page][off]);
    }
    return Fault;
  }

  /** It reads the private memory of the process that runs. */
  method UserLoad(m: Machine, p: Path, off: nat, ghost spaces: seq<nat>, ghost e: seq<Private>, ghost pid: nat)
    returns (obs: Observation)
    requires Neat(m) && Refines(m.mem, m.role, spaces, e)
    requires pid < |e| && m.cr3 == spaces[pid] && UserPath(p) && off < ENTRIES
    ensures p !in e[pid] ==> obs == Fault
    ensures p in e[pid] ==> |e[pid][p]| == ENTRIES && obs == Value(e[pid][p][off])
  {
    hide Walk, TreeOk, KernelOk, LeafOk;
    assert Sees(m.mem, m.cr3, e[pid]) && SeesPage(m.mem, m.cr3, e[pid], p);
    obs := Fetch(m, p, off);
  }

  /** What all four entries grant, the leaf grants. */
  lemma UserBitsPresent(mem: Memory, r: nat, p: Path)
    requires Granted(mem, r, p) & P_BIT != 0
    ensures Present(Walk(mem, r, p))
  {
    var e4 := Entry(mem, r, p.i4);
    var e3 := Entry(mem, e4.page, p.i3);
    var e2 := Entry(mem, e3.page, p.i2);
    BitOfAll(e4.low, e3.low, e2.low, Walk(mem, r, p).low);
  }

  lemma BitOfAll(a: bv12, b: bv12, c: bv12, d: bv12)
    ensures a & b & c & d & P_BIT != 0 ==> d & P_BIT != 0
    ensures a & b & c & d & W_BIT != 0 ==> d & W_BIT != 0
  { }

  /** A page that is there can be written, at once or after the fault handler has
      made it so; the memories seen are as before. */
  method MakeWritable(m: Machine, p: Path, ghost spaces: seq<nat>, ghost e: seq<Private>, ghost pid: nat)
    returns (ok: bool)
    requires Neat(m) && Refines(m.mem, m.role, spaces, e)
    requires pid < |e| && m.cr3 == spaces[pid] && UserPath(p) && Present(Walk(m.mem, m.cr3, p))
    modifies m`mem, m`role, m.pages`firstFree, m.pages.pageMap
    ensures ok ==> Neat(m) && Refines(m.mem, m.role, spaces, e)
    ensures ok ==> OneMoreWritable(old(m.mem), old(m.role), m.mem, m.cr3, p)
    ensures ok ==> forall q :: IsRoot(old(m.role), q) ==> IsRoot(m.role, q)
    ensures Paid(old(m.role), m.role, StoreCost(Walk(old(m.mem), m.cr3, p)), ok)
    ensures !ok ==> m.Exhausted()
  {
    hide FrameAllocator.IsFreeList, FrameAllocator.FreeSet, Walk, FreeFrames, TreeOk, KernelOk, LeafOk, Refines,
         Machine.Exhausted, Tight;
    FreeAtLeastOne(m);
    RootsOf(m.mem, m.role, spaces, e);
    LeafDecides(m.mem, m.role, m.cr3, p);
    if Granted(m.mem, m.cr3, p) & W_BIT != 0 {
      return true;
    }
    ghost var mem0, role0 := m.mem, m.role;
    ghost var content := SeenFrame(m.mem, m.role, spaces, e, pid, p);
    ok := CowFault(m, p);
    if ok {
      ghost var f :| Remapped(mem0, role0, m.mem, m.role, m.cr3, p, f, content);
      RemapRefines(mem0, role0, m.mem, m.role, spaces, e, pid, p, f, content);
      RemapMakesWritable(mem0, role0, m.mem, m.role, m.cr3, p, f, content);
      assert e[pid][p := content] == e[pid];
      assert e[pid := e[pid][p := content]] == e;
    }
  }

  /** A store through the mapping of a page, whatever its write bit.  It is a store to
      the private memory of the process that runs if and only if no other page lies on
      the same frame or the word stored is the one that was there. */
  method StoreThrough(m: Machine, p: Path, off: nat, w: Word,
                      ghost spaces: seq<nat>, ghost e: seq<Private>, ghost pid: nat)
    requires Neat(m) && Refines(m.mem, m.role, spaces, e)
    requires pid < |e| && m.cr3 == spaces[pid] && UserPath(p) && off < ENTRIES && p in e[pid]
    modifies m`mem
    ensures Neat(m) && |e[pid][p]| == ENTRIES
    ensures var f := Walk(old(m.mem), m.cr3, p).page;
            f < |old(m.mem)| && off < |old(m.mem)[f]| && m.mem == SetEntry(old(m.mem), f, off, w)
    ensures forall q, v :: IsRoot(m.role, q) && ValidPath(v) ==> Walk(m.mem, q, v) == Walk(old(m.mem), q, v)
    ensures SameWritable(old(m.mem), m.role, m.mem, |m.role|)
    ensures Refines(m.mem, m.role, spaces, e[pid := e[pid][p := e[pid][p][off := w]]])
            <==> SoleMapping(old(m.mem), spaces, m.cr3, p) || e[pid][p][off] == w
  {
    hide FrameAllocator.IsFreeList, FrameAllocator.FreeSet, Walk, SoleMapping, Refines, Tight, SameMissing;
    PresentIff(m.mem, m.role, spaces, e, pid, p);
    ghost var content := SeenFrame(m.mem, m.role, spaces, e, pid, p);
    KernelStoreRefinesIff(m.mem, m.role, spaces, e, pid, p, off, w);
    ghost var mem0 := m.mem;
    var leaf := Walk(m.mem, m.cr3, p);
    assert LeafTyped(m.role, m.cr3, p, leaf);
    DataWrite(m.mem, m.role, leaf.page, m.mem[leaf.page][off := w]);
    m.mem := SetEntry(m.mem, leaf.page, off, w);
    KernelKept(mem0, m.mem, m.role, m.role);
    DataWriteKeepsLeaves(mem0, m.mem, m.role);
    TightStill(mem0, m.role, m.mem, m.role);
    WalksLeaveWritable(mem0, m.mem, m.role, |m.role|);
  }

  lemma DataWriteKeepsLeaves(mem: Memory, mem': Memory, role: Roles)
    requires LeafOk(mem, role)
    requires forall q, v :: IsRoot(role, q) && ValidPath(v) ==> Walk(mem', q, v) == Walk(mem, q, v)
    ensures LeafOk(mem', role)
  {
    assert SameUserWalks(mem, mem', role);
  }

  lemma NowWritable(mem: Memory, role: Roles, mem': Memory, r: nat, p: Path)
    requires OneMoreWritable(mem, role, mem', r, p)
    ensures CanWrite(mem', r, p)
  { }

  /** Stores through walks that stay as they were. */
  lemma StoredWritable(mem0: Memory, role0: Roles, mem1: Memory, role1: Roles, mem2: Memory, r: nat, p: Path)
    requires OneMoreWritable(mem0, role0, mem1, r, p) && SameWritable(mem1, role1, mem2, |role1|)
    requires forall q :: IsRoot(role0, q) ==> IsRoot(role1, q)
    requires IsRoot(role0, r) && UserPath(p)
    ensures OneMoreWritable(mem0, role0, mem2, r, p)
  {
    hide CanWrite;
  }

  /** A user store. */
  method UserStore(m: Machine, p: Path, off: nat, w: Word,
                   ghost spaces: seq<nat>, ghost e: seq<Private>, ghost pid: nat)
    returns (ok: bool, obs: Observation)
    requires Neat(m) && Refines(m.mem, m.role, spaces, e)
    requires pid < |e| && m.cr3 == spaces[pid] && UserPath(p) && off < ENTRIES
    modifies m`mem, m`role, m.pages`firstFree, m.pages.pageMap
    ensures ok && p !in e[pid] ==> Neat(m) && Refines(m.mem, m.role, spaces, e) && obs == Fault
    ensures ok && p in e[pid] ==>
              && Neat(m) && obs == Done && |e[pid][p]| == ENTRIES
              && Refines(m.mem, m.role, spaces, e[pid := e[pid][p := e[pid][p][off := w]]])
              && OneMoreWritable(old(m.mem), old(m.role), m.mem, m.cr3, p)
    ensures ok && p !in e[pid] ==> m.mem == old(m.mem) && m.role == old(m.role)
    ensures Paid(old(m.role), m.role, StoreCost(Walk(old(m.mem), m.cr3, p)), ok)
    ensures !ok ==> m.Exhausted()
  {
    hide FrameAllocator.IsFreeList, FrameAllocator.FreeSet, Walk, FreeFrames, TreeOk, KernelOk, LeafOk, Refines,
         Machine.Exhausted, SoleMapping, OneMoreWritable, SameWritable, Tight;
    FreeAtLeastOne(m);
    RootsOf(m.mem, m.role, spaces, e);
    PresentIff(m.mem, m.role, spaces, e, pid, p);
    if !Present(Walk(m.mem, m.cr3, p)) {
      return true, Fault;
    }
    obs := Done;
    ok := MakeWritable(m, p, spaces, e, pid);
    if !ok { return; }
    ghost var mem1 := m.mem;
    NowWritable(old(m.mem), old(m.role), mem1, m.cr3, p);
    WritableIsSole(m.mem, m.role, spaces, e, pid, p);
    StoreThrough(m, p, off, w, spaces, e, pid);
    StoredWritable(old(m.mem), old(m.role), mem1, m.role, m.mem, m.cr3, p);
  }

  /** A store by the kernel into a user page, as read makes it.  Nothing in the kernel
      sets bit 16 of CR0, so the processor does not check the write bit. */
  method KernelStore(m: Machine, p: Path, off: nat, w: Word,
                     ghost spaces: seq<nat>, ghost e: seq<Private>, ghost pid: nat)
    returns (obs: Observation)
    requires Neat(m) && Refines(m.mem, m.role, spaces, e)
    requires pid < |e| && m.cr3 == spaces[pid] && UserPath(p) && off < ENTRIES
    modifies m`mem
    ensures Neat(m) && SameUserWalks(old(m.mem), m.mem, m.role)
    ensures SameWritable(old(m.mem), m.role, m.mem, |m.role|)
    ensures p !in e[pid] ==> obs == Fault && m.mem == old(m.mem)
    ensures p in e[pid] ==>
              && obs == Done && |e[pid][p]| == ENTRIES
              && (Refines(m.mem, m.role, spaces, e[pid := e[pid][p := e[pid][p][off := w]]])
                  <==> SoleMapping(old(m.mem), spaces, m.cr3, p) || e[pid][p][off] == w)
  {
    hide Walk, TreeOk, KernelOk, LeafOk, SoleMapping;
    assert SeesPage(m.mem, m.cr3, e[pid], p) by { assert Sees(m.mem, m.cr3, e[pid]); }
    if !Present(Walk(m.mem, m.cr3, p)) {
      return Fault;
    }
    StoreThrough(m, p, off, w, spaces, e, pid);
    obs := Done;
  }

  /** Kernel pages taken in the current space. */
  method KernelPages(m: Machine, n: nat, ghost spaces: seq<nat>, ghost e: seq<Private>) returns (ok: bool)
    requires Neat(m) && Refines(m.mem, m.role, spaces, e)
    modifies m`mem, m`role, m.pages`firstFree, m.pages.pageMap
    ensures Neat(m) && Refines(m.mem, m.role, spaces, e)
    ensures Paid(old(m.role), m.role, n, ok)
    ensures ok ==> SameUserTables(old(m.mem), m.mem, old(m.role)) && SameUserWalks(old(m.mem), m.mem, old(m.role))
    ensures ok ==> forall q :: IsRoot(m.role, q) <==> IsRoot(old(m.role), q)
    ensures !ok ==> m.Exhausted()
  {
    hide FrameAllocator.IsFreeList, FrameAllocator.FreeSet, Walk, TreeOk, KernelOk, LeafOk, Refines, FreeFrames,
         KernelFrame, TablesKept, SameUserTables, SameUserWalks, Machine.Exhausted, Tight;
    FreeAtLeastOne(m);
    ghost var mem0, role0 := m.mem, m.role;
    NothingTaken(mem0, role0);
    ok := true;
    var i := 0;
    while i < n
      invariant 0 <= i <= n && |FreeFrames(m.role)| + i == |FreeFrames(role0)|
      invariant Neat(m) && Refines(m.mem, m.role, spaces, e) && TablesKept(mem0, role0, m.mem, m.role)
    {
      FreeAtLeastOne(m);
      ghost var mem1, role1 := m.mem, m.role;
      var f;
      ok, f := Kmalloc(m);
      if !ok { return; }
      KernelFrameIsKernelOnly(mem1, role1, m.mem, m.role, m.cr3, f, 7 | ACCESSED | DIRTY);
      KernelOnlyRefines(mem1, role1, m.mem, m.role, spaces, e);
      KeptOnceMore(mem0, role0, mem1, role1, m.mem, m.role, m.cr3, f, 7 | ACCESSED | DIRTY);
      i := i + 1;
    }
    FreeAtLeastOne(m);
    WhatIsKept(mem0, role0, m.mem, m.role);
  }

  /** Kernel pages have been taken, no table of a space has changed. */
  ghost predicate TablesKept(mem: Memory, role: Roles, mem': Memory, role': Roles) {
    && |role'| == |role|
    && SameUserTables(mem, mem', role) && SameUserWalks(mem, mem', role)
    && (forall g :: 0 <= g < |role| && role[g].Table? ==> role'[g] == role[g])
    && (forall q :: IsRoot(role', q) <==> IsRoot(role, q))
  }

  lemma NothingTaken(mem: Memory, role: Roles)
    requires TreeOk(mem, role)
    ensures TablesKept(mem, role, mem, role)
  { }

  lemma KernelFrameIsKernelOnly(mem: Memory, role: Roles, mem': Memory, role': Roles, r: nat, f: nat, low: bv12)
    requires KernelFrame(mem, role, mem', role', r, f, low)
    ensures KernelOnly(mem, role, mem', role')
  {
    hide Walk;
  }

  lemma KeptOnceMore(mem: Memory, role: Roles, mem1: Memory, role1: Roles, mem2: Memory, role2: Roles,
                     r: nat, f: nat, low: bv12)
    requires TablesKept(mem, role, mem1, role1) && KernelFrame(mem1, role1, mem2, role2, r, f, low)
    ensures TablesKept(mem, role, mem2, role2)
  {
    hide Walk;
  }

  lemma WhatIsKept(mem: Memory, role: Roles, mem': Memory, role': Roles)
    requires TablesKept(mem, role, mem', role')
    ensures SameUserTables(mem, mem', role) && SameUserWalks(mem, mem', role)
    ensures forall q :: IsRoot(role', q) <==> IsRoot(role, q)
  { }

  /** The address space of the child, all pages shared. */
  method ForkSpace(m: Machine, ghost spaces: seq<nat>, ghost e: seq<Private>, ghost pid: nat)
    returns (ok: bool, c: nat)
    requires Neat(m) && Refines(m.mem, m.role, spaces, e) && pid < |e| && m.cr3 == spaces[pid]
    modifies m`mem, m`role, m.pages`firstFree, m.pages.pageMap
    ensures ok ==> Neat(m) && Refines(m.mem, m.role, spaces + [c], e + [e[pid]])
    ensures ok ==> SharesPages(m.mem, m.cr3, c)
    ensures ok ==> SameWritable(old(m.mem), old(m.role), m.mem, m.cr3)
    ensures ok ==> NoneWritable(m.mem, m.cr3) && NoneWritable(m.mem, c)
    ensures ok ==> forall q :: IsRoot(old(m.role), q) ==> IsRoot(m.role, q)
    ensures Paid(old(m.role), m.role, 1 + TableCount(e[pid].Keys), ok)
    ensures !ok ==> m.Exhausted()
  {
    hide FrameAllocator.IsFreeList, FrameAllocator.FreeSet, Walk, TreeOk, KernelOk, LeafOk, FreeFrames, CountRoot,
         Refines, Forked, SharesPages, Tight, TableCount, SameWritable, NoneWritable;
    ghost var r := m.cr3;
    CostSeen(m, spaces, e, pid, Path(0, 0, 0, 0));
    assert IsRoot(m.role, r);
    ok, c := ForkTables(m);
    if ok {
      ForkRefines(old(m.mem), old(m.role), m.mem, m.role, spaces, e, pid, c);
      ForkShares(old(m.mem), old(m.role), m.mem, m.role, r, c);
      ForkLeavesWritable(old(m.mem), old(m.role), m.mem, m.role, r, c);
    }
  }

  /** Every page of the space of `r` is a page of the space of `c`, on the same frame. */
  ghost predicate SharesPages(mem: Memory, r: nat, c: nat) {
    forall v :: UserPath(v) && Present(Walk(mem, r, v)) ==> Walk(mem, c, v) == Walk(mem, r, v)
  }

  lemma ForkShares(mem: Memory, role: Roles, mem': Memory, role': Roles, r: nat, c: nat)
    requires Forked(mem, role, mem', role', r, c)
    ensures SharesPages(mem', r, c)
    ensures forall q :: IsRoot(role, q) ==> IsRoot(role', q)
  {
    hide Walk;
    forall v | UserPath(v) && Present(Walk(mem', r, v)) ensures Walk(mem', c, v) == Walk(mem', r, v) {
      assert Walk(mem', r, v) == ParentLeaf(Walk(mem, r, v)) && Walk(mem', c, v) == ChildLeaf(Walk(mem, r, v));
    }
  }

  /** forkSyscall, as far as memory goes: a record for the child, its address space,
      and its other records, taken in the child's space. */
  method ForkSyscall(m: Machine, kernelPages: nat, ghost spaces: seq<nat>, ghost e: seq<Private>, ghost pid: nat)
    returns (ok: bool, c: nat)
    requires Neat(m) && Refines(m.mem, m.role, spaces, e) && pid < |e| && m.cr3 == spaces[pid]
    modifies m`mem, m`role, m`cr3, m.pages`firstFree, m.pages.pageMap
    ensures ok ==> Neat(m) && m.cr3 == old(m.cr3) && Refines(m.mem, m.role, spaces + [c], e + [e[pid]])
    ensures ok ==> SharesPages(m.mem, m.cr3, c)
    ensures ok ==> SameWritable(old(m.mem), old(m.role), m.mem, m.cr3)
    ensures ok ==> NoneWritable(m.mem, m.cr3) && NoneWritable(m.mem, c)
    ensures Paid(old(m.role), m.role, 2 + TableCount(e[pid].Keys) + kernelPages, ok)
    ensures !ok ==> m.Exhausted()
  {
    hide FrameAllocator.IsFreeList, FrameAllocator.FreeSet, Walk, TreeOk, KernelOk, LeafOk, FreeFrames, CountRoot,
         Refines, SameUserTables, SameUserWalks, SharesPages, SameWritable, NoneWritable, Paid, Machine.Valid,
         Machine.Exhausted, Tight, TableCount;
    RootsOf(m.mem, m.role, spaces, e);
    FreeAtLeastOne(m);
    ghost var role0, cost, later := m.role, TableCount(e[pid].Keys), kernelPages;
    c := 0;
    assert IsRoot(m.role, m.cr3);
    ok := KernelPages(m, 1, spaces, e);
    if !ok {
      PaidNeither(role0, m.role, m.role, 1, 1 + cost + later);
      return;
    }
    ghost var mem1, role1 := m.mem, m.role;
    WalksLeaveWritable(old(m.mem), mem1, role0, m.cr3);
    ok, c := ForkSpace(m, spaces, e, pid);
    if !ok {
      PaidNeither(role1, m.role, m.role, 1 + cost, later);
      PaidBoth(role0, role1, m.role, 1, 1 + cost + later, false);
      return;
    }
    SameWritableTwice(old(m.mem), role0, mem1, role1, m.mem, m.cr3);
    NewSpace(m.mem, m.role, spaces, e, pid, c);
    var parent := m.cr3;
    m.cr3 := c;
    ghost var mem2, role2 := m.mem, m.role;
    PaidBoth(role0, role1, role2, 1, 1 + cost, true);
    ok := KernelPages(m, kernelPages, spaces + [c], e + [e[pid]]);
    m.cr3 := parent;
    PaidBoth(role0, role2, m.role, 2 + cost, later, ok);
    if ok {
      SharesKept(mem2, role2, m.mem, parent, c);
      WalksLeaveWritable(mem2, m.mem, role2, parent);
      SameWritableTwice(old(m.mem), role0, mem2, role2, m.mem, parent);
    }
  }

  lemma SharesKept(mem: Memory, role: Roles, mem': Memory, r: nat, c: nat)
    requires SharesPages(mem, r, c) && SameUserWalks(mem, mem', role) && IsRoot(role, r) && IsRoot(role, c)
    ensures SharesPages(mem', r, c)
  {
    hide Walk;
  }

  lemma NewSpace(mem: Memory, role: Roles, spaces: seq<nat>, e: seq<Private>, pid: nat, c: nat)
    requires pid < |spaces| == |e| && Refines(mem, role, spaces + [c], e + [e[pid]])
    ensures IsRoot(role, c) && IsRoot(role, spaces[pid])
  {
    assert (spaces + [c])[pid] == spaces[pid] && (spaces + [c])[|spaces|] == c;
  }

  /** After fork the kernel reads into a page of the parent, and the child finds the new
      word in its memory. */
  method ReadAfterFork(m: Machine, p: Path, off: nat, w: Word, spaces: seq<nat>, ghost e: seq<Private>, pid: nat)
    returns (ok: bool, obs: Observation)
    requires Neat(m) && Refines(m.mem, m.role, spaces, e) && pid < |e|
    requires UserPath(p) && off < ENTRIES && p in e[pid]
    modifies m`mem, m`role, m`cr3, m.pages`firstFree, m.pages.pageMap
    ensures ok ==> Neat(m) && obs == Value(w)
    ensures !ok ==> m.Exhausted()
  {
    hide FrameAllocator.IsFreeList, FrameAllocator.FreeSet, Walk, TreeOk, KernelOk, LeafOk, FreeFrames, CountRoot,
         Refines, SoleMapping, Paid, Machine.Valid, Machine.Exhausted;
    RootsOf(m.mem, m.role, spaces, e);
    obs := Fault;
    m.cr3 := spaces[pid];
    var c;
    ok, c := ForkSyscall(m, 0, spaces, e, pid);
    if !ok { return; }
    NewSpace(m.mem, m.role, spaces, e, pid, c);
    PresentIff(m.mem, m.role, spaces + [c], e + [e[pid]], pid, p);
    StoreThrough(m, p, off, w, spaces + [c], e + [e[pid]], pid);
    m.cr3 := c;
    obs := Fetch(m, p, off);
  }

  /** On the machine that copies at once the child still finds the old one. */
  lemma EagerReadAfterFork(e: seq<Private>, pid: nat, p: Path, off: nat, w: Word)
    requires pid < |e| && forall k :: 0 <= k < |e| ==> Pages(e[k])
    requires UserPath(p) && off < ENTRIES && p in e[pid]
    ensures |e[pid][p]| == ENTRIES && ValidOps(|e|, [ForkOf(pid, 0), KernelWrite(pid, p, off, w), Load(|e|, p, off)])
    ensures EagerRun(e, [ForkOf(pid, 0), KernelWrite(pid, p, off, w), Load(|e|, p, off)]).1 ==
            [Done, Done, Value(e[pid][p][off])]
  {
    assert Pages(e[pid]);
    var ops := [ForkOf(pid, 0), KernelWrite(pid, p, off, w), Load(|e|, p, off)];
    assert ops[1..] == [KernelWrite(pid, p, off, w), Load(|e|, p, off)] && ops[1..][1..] == [Load(|e|, p, off)];
    assert ops[1..][1..][1..] == [];
    var n := |e| + 1;
    assert ValidOps(n, ops[1..][1..]);
    assert ValidOps(n, ops[1..]);
    var e1 := e + [e[pid]];
    EagerStepPages(e, ops[0]);
    EagerStepPages(e1, ops[1]);
    var e2 := EagerStep(e1, ops[1]).0;
    assert EagerRun(e2, [Load(|e|, p, off)]).1 == [Value(e[pid][p][off])];
    assert EagerRun(e1, ops[1..]).1 == [Done, Value(e[pid][p][off])];
  }

  /** loadCR3. */
  method Enter(m: Machine, r: nat)
    requires Neat(m) && IsRoot(m.role, r)
    modifies m`cr3
    ensures Neat(m) && m.cr3 == r
  {
    m.cr3 := r;
  }

  /** One step of the machine: process `pid` runs, so its root is in CR3. */
  method Step(m: Machine, spaces: seq<nat>, op: Op, ghost e: seq<Private>, ghost own: OwnPages)
    returns (ok: bool, spaces': seq<nat>, obs: Observation)
    requires Neat(m) && Refines(m.mem, m.role, spaces, e) && ValidOp(|e|, op)
    requires forall k :: 0 <= k < |e| ==> Pages(e[k])
    requires Owns(m.mem, spaces, own) && |own| == |e| && SafeOp(e, own, op)
    modifies m`mem, m`role, m`cr3, m.pages`firstFree, m.pages.pageMap
    ensures ok ==> Neat(m) && Refines(m.mem, m.role, spaces', EagerStep(e, op).0)
    ensures ok ==> Owns(m.mem, spaces', OwnAfter(e, own, op))
    ensures ok ==> obs == EagerStep(e, op).1
    ensures Paid(old(m.role), m.role, Cost(e, own, op), ok)
    ensures !ok ==> m.Exhausted()
  {
    hide FrameAllocator.IsFreeList, FrameAllocator.FreeSet, Walk, TreeOk, KernelOk, LeafOk, FreeFrames, CountRoot,
         MissingTables, Refines, SharesPages, Machine.Valid, Machine.Exhausted, Owns, SameWritable, SameUserWalks,
         SameUserTables, CanWrite, OneMoreWritable, NoneWritable, Tight, TableCount, MissingFor, Paid, StoreCost,
         Neat, Sound;
    RootsOf(m.mem, m.role, spaces, e);
    NothingPaid(m);
    ghost var mem0, role0 := m.mem, m.role;
    ok, spaces', obs := true, spaces, Done;
    match op {
      case Load(pid, page, off) =>
        Enter(m, spaces[pid]);
        obs := UserLoad(m, page, off, spaces, e, pid);
      case Store(pid, page, off, w) =>
        Enter(m, spaces[pid]);
        StoreCostSeen(mem0, role0, spaces, e, own, pid, page);
        ok, obs := UserStore(m, page, off, w, spaces, e, pid);
        if ok && page in e[pid] { OwnsOneMore(mem0, role0, m.mem, spaces, own, pid, page); }
      case ForkOf(pid, kernelPages) =>
        Enter(m, spaces[pid]);
        var c;
        ok, c := ForkSyscall(m, kernelPages, spaces, e, pid);
        spaces' := spaces + [c];
        if ok { OwnsAfterFork(mem0, role0, m.mem, spaces, own, pid, c); }
      case MapNew(pid, page) =>
        Enter(m, spaces[pid]);
        ok := NewPage(m, page, spaces, e, pid);
        if ok { OwnsOneMore(mem0, role0, m.mem, spaces, own, pid, page); }
      case Spawn =>
        var c;
        ok, c := SpawnSpace(m, spaces, e);
        spaces' := spaces + [c];
        if ok {
          OwnsStill(mem0, role0, m.mem, spaces, own);
          OwnsAfterSpawn(m.mem, spaces, own, c);
        }
      case KernelAlloc(pid) =>
        Enter(m, spaces[pid]);
        ok := KernelPages(m, 1, spaces, e);
        if ok {
          WalksLeaveWritable(mem0, m.mem, role0, |role0|);
          OwnsStill(mem0, role0, m.mem, spaces, own);
        }
      case Touch(pid, path, level, dirty) =>
        Enter(m, spaces[pid]);
        MarkEntry(m, path, level, dirty, spaces, e);
        OwnsStill(mem0, role0, m.mem, spaces, own);
      case KernelWrite(pid, page, off, w) =>
        Enter(m, spaces[pid]);
        if page in own[pid] { OwnedIsSole(m, spaces, e, own, pid, page); }
        obs := KernelStore(m, page, off, w, spaces, e, pid);
        if page !in e[pid] { assert m.mem == mem0; }
        OwnsStill(mem0, role0, m.mem, spaces, own);
    }
  }

  /** A store costs a frame exactly when its page is mapped and not among the process's own. */
  lemma StoreCostSeen(mem: Memory, role: Roles, spaces: seq<nat>, e: seq<Private>, own: OwnPages, pid: nat, page: Path)
    requires Refines(mem, role, spaces, e) && Owns(mem, spaces, own) && pid < |e| == |own| && UserPath(page)
    ensures StoreCost(Walk(mem, spaces[pid], page)) == if page in e[pid] && page !in own[pid] then 1 else 0
  {
    PresentIff(mem, role, spaces, e, pid, page);
    assert page in own[pid] <==> UserPath(page) && CanWrite(mem, spaces[pid], page);
  }

  lemma OwnedIsSole(m: Machine, spaces: seq<nat>, e: seq<Private>, own: OwnPages, pid: nat, page: Path)
    requires Neat(m) && Refines(m.mem, m.role, spaces, e) && Owns(m.mem, spaces, own) && pid < |own|
    requires page in own[pid]
    ensures SoleMapping(m.mem, spaces, spaces[pid], page)
  {
    WritableIsSole(m.mem, m.role, spaces, e, pid, page);
  }

  /** The processor marks an entry on the way to an address it has used. */
  method MarkEntry(m: Machine, path: Path, level: nat, dirty: bool, ghost spaces: seq<nat>, ghost e: seq<Private>)
    requires Neat(m) && Refines(m.mem, m.role, spaces, e) && ValidPath(path) && 1 <= level <= 4
    modifies m`mem
    ensures Neat(m) && Refines(m.mem, m.role, spaces, e)
    ensures SameWritable(old(m.mem), m.role, m.mem, |m.role|)
  {
    hide FrameAllocator.IsFreeList, FrameAllocator.FreeSet, Walk, TreeOk, KernelOk, LeafOk, Refines, Tight, SameMissing;
    ghost var mem0 := m.mem;
    m.Mark(m.cr3, path, level, if dirty then ACCESSED | DIRTY else ACCESSED);
    MarksKeepLeaves(mem0, m.role, m.mem);
    MarksKeepKernel(mem0, m.role, m.mem);
    MarksRefine(mem0, m.role, m.mem, spaces, e);
    MarksLeaveWritable(mem0, m.mem, m.role);
    MarksKeepTight(mem0, m.role, m.mem);
  }

  /** A heap fault, or one page of the program loader. */
  method NewPage(m: Machine, page: Path, ghost spaces: seq<nat>, ghost e: seq<Private>, ghost pid: nat)
    returns (ok: bool)
    requires Neat(m) && Refines(m.mem, m.role, spaces, e)
    requires pid < |e| && m.cr3 == spaces[pid] && UserPath(page)
    modifies m`mem, m`role, m.pages`firstFree, m.pages.pageMap
    ensures ok ==> Neat(m) && Refines(m.mem, m.role, spaces, e[pid := e[pid][page := ZeroFrame()]])
    ensures ok ==> CanWrite(m.mem, m.cr3, page) && OneMoreWritable(old(m.mem), old(m.role), m.mem, m.cr3, page)
    ensures ok ==> forall v :: UserPath(v) && v != page ==> Walk(m.mem, m.cr3, v) == Walk(old(m.mem), m.cr3, v)
    ensures ok ==> forall q :: IsRoot(old(m.role), q) ==> IsRoot(m.role, q)
    ensures Paid(old(m.role), m.role, 1 + MissingFor(e[pid].Keys, page), ok)
    ensures !ok ==> m.Exhausted()
  {
    hide FrameAllocator.IsFreeList, FrameAllocator.FreeSet, Walk, TreeOk, KernelOk, LeafOk, FreeFrames, Refines, Tight,
         MissingTables, MissingFor;
    ghost var mem0, role0 := m.mem, m.role;
    CostSeen(m, spaces, e, pid, page);
    ok := MapFresh(m, page);
    if ok {
      ghost var f :| Remapped(mem0, role0, m.mem, m.role, m.cr3, page, f, ZeroFrame());
      RemapRefines(mem0, role0, m.mem, m.role, spaces, e, pid, page, f, ZeroFrame());
      RemapMakesWritable(mem0, role0, m.mem, m.role, m.cr3, page, f, ZeroFrame());
    }
  }

  method SpawnSpace(m: Machine, ghost spaces: seq<nat>, ghost e: seq<Private>) returns (ok: bool, c: nat)
    requires Neat(m) && Refines(m.mem, m.role, spaces, e)
    modifies m`mem, m`role, m.pages`firstFree, m.pages.pageMap
    ensures ok ==> Neat(m) && Refines(m.mem, m.role, spaces + [c], e + [imap[]])
    ensures ok ==> SameWritable(old(m.mem), old(m.role), m.mem, |old(m.role)|) && NoneWritable(m.mem, c)
    ensures ok ==> forall q :: IsRoot(old(m.role), q) ==> IsRoot(m.role, q)
    ensures Paid(old(m.role), m.role, 1, ok)
    ensures !ok ==> m.Exhausted()
  {
    hide FrameAllocator.IsFreeList, FrameAllocator.FreeSet, Walk, TreeOk, KernelOk, LeafOk, Refines, Tight;
    ghost var mem0, role0 := m.mem, m.role;
    ok, c := SetUserSpace(m);
    if ok {
      KernelOnlyRefines(mem0, role0, m.mem, m.role, spaces, e);
      WalksLeaveWritable(mem0, m.mem, role0, |role0|);
    }
  }

  /** Copy-on-write refines eager copying: for every run of forks, loads, stores,
      newly mapped pages, new spaces and kernel allocations, and of kernel stores into pages
      that their process has mapped or written since its last fork, everything observed is
      what the machine that copies at once shows, and at the end the spaces are isolated.
      The run stops early only when the frame allocator is down to its last page, and
      what it has shown by then is right. */
  method Execute(m: Machine, spaces: seq<nat>, ops: seq<Op>, ghost e: seq<Private>, ghost own: OwnPages)
    returns (ok: bool, spaces': seq<nat>, obs: seq<Observation>)
    requires Neat(m) && Refines(m.mem, m.role, spaces, e) && ValidOps(|e|, ops)
    requires forall k :: 0 <= k < |e| ==> Pages(e[k])
    requires Owns(m.mem, spaces, own) && |own| == |e| && SafeRun(e, own, ops)
    modifies m`mem, m`role, m`cr3, m.pages`firstFree, m.pages.pageMap
    ensures ok ==> Neat(m) && Refines(m.mem, m.role, spaces', EagerRun(e, ops).0)
    ensures obs <= EagerRun(e, ops).1 && (ok <==> obs == EagerRun(e, ops).1)
    ensures ok ==> Isolated(m.mem, spaces')
    ensures Paid(old(m.role), m.role, RunCost(e, own, ops), ok)
    ensures !ok ==> m.Exhausted()
  {
    hide FrameAllocator.IsFreeList, FrameAllocator.FreeSet, Walk, TreeOk, KernelOk, LeafOk, Refines, EagerStep, Pages,
         Owns, SafeOp, OwnAfter, Machine.Valid, Machine.Exhausted, Paid, Cost, Tight;
    ok, spaces', obs := true, spaces, [];
    ghost var cur, mine, role0 := e, own, m.role;
    ghost var spent: nat := 0;
    NothingPaid(m);
    assert ops[0..] == ops;
    var i := 0;
    while i < |ops|
      invariant 0 <= i <= |ops|
      invariant Neat(m) && Refines(m.mem, m.role, spaces', cur)
      invariant forall k :: 0 <= k < |cur| ==> Pages(cur[k])
      invariant ValidOps(|cur|, ops[i..])
      invariant Owns(m.mem, spaces', mine) && |mine| == |cur| && SafeRun(cur, mine, ops[i..])
      invariant EagerRun(e, ops).0 == EagerRun(cur, ops[i..]).0
      invariant EagerRun(e, ops).1 == obs + EagerRun(cur, ops[i..]).1
      invariant Paid(role0, m.role, spent, true) && RunCost(e, own, ops) == spent + RunCost(cur, mine, ops[i..])
    {
      ghost var role1, cost := m.role, Cost(cur, mine, ops[i]);
      assert ops[i..][1..] == ops[i + 1..];
      EagerStepPages(cur, ops[i]);
      OwnPopulation(cur, mine, ops[i]);
      var o;
      ok, spaces', o := Step(m, spaces', ops[i], cur, mine);
      PaidBoth(role0, role1, m.role, spent, cost, ok);
      if !ok {
        PaidMore(role0, m.role, m.role, spent + cost, RunCost(e, own, ops));
        return;
      }
      spent := spent + cost;
      mine := OwnAfter(cur, mine, ops[i]);
      cur := EagerStep(cur, ops[i]).0;
      obs := obs + [o];
      i := i + 1;
    }
    m.ValidTrees();
    RefinesIsIsolated(m.mem, m.role, spaces', cur);
  }

  lemma NothingPaid(m: Machine)
    requires Neat(m)
    ensures Paid(m.role, m.role, 0, true)
  {
    FreeAtLeastOne(m);
  }

  lemma RefinesIsIsolated(mem: Memory, role: Roles, spaces: seq<nat>, e: seq<Private>)
    requires TreeOk(mem, role) && LeafOk(mem, role) && Refines(mem, role, spaces, e)
    ensures Isolated(mem, spaces)
  {
    TypedIsIsolated(mem, role, spaces);
  }
}
