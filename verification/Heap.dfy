/** The page fault handler's search for a region, and the demand-paged heap
    (sys/page.c, sys/elf64.c). */
module Heap {
  import opened Integers
  import opened Paging
  import opened Spaces
  import opened Mmu
  import opened Kernel
  import opened Tables
  import Fork
  import FrameAllocator

  const HEAP_START: nat := 0x0800_0000
  const HEAP_END: nat := 0x1000_0000
  const STACK_LIMIT: nat := 0x2_0000

  datatype Kind = TEXT | DATA | STACK | HEAP | NOTYPE

  datatype Option<T> = None | Some(value: T)

  /** Where in its file a region comes from. */
  datatype FileRef = FileRef(pgoff: nat, size: nat, bss: int)

  /** What a region record says. */
  datatype Region = Region(start: nat, end: nat, flag: nat, kind: Kind, file: Option<FileRef>)

  class Vma {
    var start: nat
    var end: nat
    var flag: nat
    var kind: Kind
    var file: Option<FileRef>
    var next: Vma?

    ghost function Contents(): Region
      reads this`start, this`end, this`flag, this`kind, this`file
    {
      Region(start, end, flag, kind, file)
    }

    constructor (r: Region, next: Vma?)
      ensures Contents() == r && this.next == next
    {
      start, end, flag, kind, file := r.start, r.end, r.flag, r.kind, r.file;
      this.next := next;
    }
  }

  /** A difference of unsigned 64-bit numbers. */
  function Minus(a: int, b: int): nat { (a - b) % TWO64 }

  predicate StackBranch(fault: nat, start: nat, end: nat) {
    && fault <= end
    && Minus(Minus(start, end), TWO12) <= STACK_LIMIT
    && Minus(Minus(fault, end), TWO12) <= STACK_LIMIT
  }

  /** The stack branch is never taken: the distance it compares is negative, and
      huge when read as unsigned. */
  lemma StackBranchDead(fault: nat, start: nat, end: nat)
    requires end < TWO64 - STACK_LIMIT - TWO12
    ensures !StackBranch(fault, start, end)
  {
    if fault <= end {
      assert Minus(fault, end) == if fault == end then 0 else TWO64 + fault - end;
    }
  }

  predicate HeapPage(page: nat) { HEAP_START / TWO12 <= page <= HEAP_END / TWO12 }

  predicate Mapped(mem: Memory, r: nat, page: nat) { Present(Walk(mem, r, PagePath(page))) }

  /** The page that a heap fault at `a` maps when the region ends at page `end`. */
  function GrowPage(a: nat, end: nat): nat {
    if a < end * TWO12 then PageOf(a) else end
  }

  /** The heap branch of pageFault. */
  method HeapFault(m: Machine, a: nat, vma: Vma) returns (ok: bool)
    requires Sound(m) && a <= HEAP_END && vma.end % TWO12 == 0 && vma.end <= HEAP_END + TWO12
    modifies m`mem, m`role, m.pages`firstFree, m.pages.pageMap, vma`end
    ensures Sound(m)
    ensures ok ==>
              && vma.end % TWO12 == 0
              && PageOf(vma.end) == GrowPage(a, PageOf(old(vma.end))) + 1
              && Grown(old(m.mem), old(m.role), m.mem, m.role, m.cr3, GrowPage(a, PageOf(old(vma.end))))
    ensures ok && !Mapped(old(m.mem), m.cr3, PageOf(a)) ==>
              (NothingReplaced(old(m.mem), old(m.role), m.mem, m.role)
               <==> !(old(vma.end) <= a && Mapped(old(m.mem), m.cr3, PageOf(old(vma.end)))))
    ensures !ok ==> m.Exhausted()
  {
    hide FrameAllocator.IsFreeList, FrameAllocator.FreeSet, Walk, PathOf, NothingReplaced, TreeOk, KernelOk, LeafOk;
    var end := vma.end;
    while a < end
      invariant end % TWO12 == 0 && 0 <= end <= vma.end
      invariant PageOf(end) == PageOf(vma.end) || (a < vma.end && PageOf(a) <= PageOf(end))
    {
      end := end - TWO12;
    }
    assert PageOf(end) == GrowPage(a, PageOf(vma.end));
    PagePathOf(end);
    ok := MapFresh(m, PathOf(end));
    if ok && !Mapped(old(m.mem), m.cr3, PageOf(a)) {
      FaultReplacesIff(old(m.mem), old(m.role), m.mem, m.role, m.cr3, a, PageOf(vma.end));
    }
    vma.end := if ok then end + TWO12 else vma.end;
  }

  /** The heap page is mapped to a fresh frame; everything else stays. */
  ghost predicate Grown(mem: Memory, role: Roles, mem': Memory, role': Roles, r: nat, page: nat) {
    exists f :: Remapped(mem, role, mem', role', r, PagePath(page), f, ZeroFrame())
  }

  /** No mapped page of any space is replaced. */
  ghost predicate NothingReplaced(mem: Memory, role: Roles, mem': Memory, role': Roles) {
    && (forall q :: IsRoot(role, q) ==> IsRoot(role', q))
    && (forall q, p :: IsRoot(role, q) && UserPath(p) && Present(Walk(mem, q, p)) ==>
          Walk(mem', q, p) == Walk(mem, q, p))
  }

  /** A heap fault at an unmapped address leaves every mapped page alone unless it lies at
      or beyond the recorded end and the page at that end is mapped. */
  lemma FaultReplacesIff(mem: Memory, role: Roles, mem': Memory, role': Roles, r: nat, a: nat, end: nat)
    requires a < TWO47 && end * TWO12 < TWO47 && !Mapped(mem, r, PageOf(a))
    requires LeafOk(mem, role) && IsRoot(role, r) && Grown(mem, role, mem', role', r, GrowPage(a, end))
    ensures NothingReplaced(mem, role, mem', role') <==> !(end * TWO12 <= a && Mapped(mem, r, end))
  {
    hide Walk, PathOf;
    var p := PagePath(GrowPage(a, end));
    PagePathOf(a);
    PagePathOf(end * TWO12);
    var f :| Remapped(mem, role, mem', role', r, p, f, ZeroFrame());
    if Present(Walk(mem, r, p)) {
      assert LeafTyped(role, r, p, Walk(mem, r, p));
      assert Walk(mem', r, p) != Walk(mem, r, p);
    }
  }

  // --------------------------------------------------- growing on demand

  /** The heap is mapped up to page `end` and not beyond. */
  ghost predicate HeapTidy(mem: Memory, r: nat, end: nat) {
    && HEAP_START / TWO12 <= end <= HEAP_END / TWO12 + 1
    && forall x: nat :: HeapPage(x) ==> (Mapped(mem, r, x) <==> x < end)
  }

  /** The pages of a space outside the heap. */
  ghost function ProgramPages(mem: Memory, r: nat): set<nat> {
    set x: nat | x < TWO47 / TWO12 && !HeapPage(x) && Mapped(mem, r, x)
  }

  lemma GrownIsTidy(mem: Memory, role: Roles, mem': Memory, role': Roles, r: nat, end: nat)
    requires IsRoot(role, r) && HeapTidy(mem, r, end) && end <= HEAP_END / TWO12
    requires Grown(mem, role, mem', role', r, end)
    ensures HeapTidy(mem', r, end + 1) && NothingReplaced(mem, role, mem', role')
    ensures ProgramPages(mem', r) == ProgramPages(mem, r)
  {
    forall x: nat | x < TWO47 / TWO12 && !HeapPage(x) ensures Mapped(mem', r, x) <==> Mapped(mem, r, x) {
      PagePathOf(x * TWO12);
      PagePathsDiffer(x, end);
    }
    forall x: nat | HeapPage(x) ensures Mapped(mem', r, x) <==> x < end + 1 {
      PagePathOf(x * TWO12);
      if x != end { PagePathsDiffer(x, end); }
    }
    assert HeapPage(end) && !Mapped(mem, r, end);
  }

  /** A program touches heap address `a` until the access succeeds.  Each round
      faults and adds one page; the rounds are exactly the pages from the end of
      the heap up to that of `a`. */
  method TouchHeap(m: Machine, a: nat, heap: Vma) returns (ok: bool, rounds: nat)
    requires Sound(m) && HEAP_START <= a <= HEAP_END
    requires heap.end % TWO12 == 0 && HeapTidy(m.mem, m.cr3, PageOf(heap.end))
    modifies m`mem, m`role, m.pages`firstFree, m.pages.pageMap, heap`end
    ensures ok ==> Sound(m) && Mapped(m.mem, m.cr3, PageOf(a))
    ensures ok ==> rounds == if PageOf(a) < PageOf(old(heap.end)) then 0 else PageOf(a) - PageOf(old(heap.end)) + 1
    ensures ok ==> heap.end == old(heap.end) + rounds * TWO12 && HeapTidy(m.mem, m.cr3, PageOf(heap.end))
    ensures ok ==> NothingReplaced(old(m.mem), old(m.role), m.mem, m.role)
    ensures ok ==> ProgramPages(m.mem, m.cr3) == ProgramPages(old(m.mem), m.cr3)
    ensures !ok ==> m.Exhausted()
  {
    hide FrameAllocator.IsFreeList, FrameAllocator.FreeSet, Walk, PathOf, TreeOk, KernelOk, LeafOk;
    ok, rounds := true, 0;
    PagePathOf(a);
    assert HeapPage(PageOf(a));
    while !Present(Walk(m.mem, m.cr3, PathOf(a)))
      invariant Sound(m)
      invariant heap.end == old(heap.end) + rounds * TWO12
      invariant HeapTidy(m.mem, m.cr3, PageOf(heap.end))
      invariant PageOf(heap.end) == PageOf(old(heap.end)) + rounds
      invariant rounds == 0 || PageOf(heap.end) <= PageOf(a) + 1
      invariant NothingReplaced(old(m.mem), old(m.role), m.mem, m.role)
      invariant ProgramPages(m.mem, m.cr3) == ProgramPages(old(m.mem), m.cr3)
      decreases PageOf(a) + 1 - rounds
    {
      ghost var mem0, role0, end0 := m.mem, m.role, PageOf(heap.end);
      assert !Mapped(mem0, m.cr3, PageOf(a));
      assert end0 <= PageOf(a);
      ok := HeapFault(m, a, heap);
      if !ok { return; }
      GrownIsTidy(mem0, role0, m.mem, m.role, m.cr3, end0);
      rounds := rounds + 1;
    }
  }

  // ------------------------------------------------------------ the handler

  datatype Outcome = Copied | Extended(index: nat) | Halted | Returned

  predicate Handles(v: Kind, start: nat, a: nat) { v == HEAP && start <= a <= HEAP_END }

  /** The addresses that a heap region takes, up to and including the limit. */
  lemma HeapRange(a: nat)
    ensures Handles(HEAP, HEAP_START, a) <==> 0x0800_0000 <= a <= 0x1000_0000
    ensures forall v, start :: v != HEAP ==> !Handles(v, start, a)
  { }

  /** pageFault.  `protection` and `write` are the error-code bits; a protection
      fault is one at a mapped page. */
  method PageFault(m: Machine, a: nat, protection: bool, write: bool, vmas: seq<Vma>)
    returns (ok: bool, outcome: Outcome)
    requires Sound(m) && UserPath(PathOf(a))
    requires protection <==> Present(Walk(m.mem, m.cr3, PathOf(a)))
    requires protection && write ==> !Writable(Walk(m.mem, m.cr3, PathOf(a)))
    requires forall v :: v in vmas ==> v.end < TWO48
    requires forall v :: v in vmas && v.kind == HEAP ==> v.end % TWO12 == 0 && v.end <= HEAP_END + TWO12
    modifies m`mem, m`role, m.pages`firstFree, m.pages.pageMap, (set v | v in vmas)`end
    ensures !ok ==> m.Exhausted()
    ensures ok ==> Sound(m)
    ensures ok ==> (outcome == Copied <==> protection && write)
    ensures ok && outcome == Copied ==>
              && Writable(Walk(m.mem, m.cr3, PathOf(a)))
              && (exists f ::
                    && Walk(old(m.mem), m.cr3, PathOf(a)).page < |old(m.mem)|
                    && Remapped(old(m.mem), old(m.role), m.mem, m.role, m.cr3, PathOf(a), f,
                                old(m.mem)[Walk(old(m.mem), m.cr3, PathOf(a)).page]))
              && (forall v :: v in vmas ==> v.end == old(v.end))
    ensures ok && !outcome.Copied? ==>
              (outcome.Extended? <==> exists j :: 0 <= j < |vmas| && Handles(vmas[j].kind, vmas[j].start, a))
    ensures ok && outcome.Extended? ==>
              && outcome.index < |vmas| && Handles(vmas[outcome.index].kind, vmas[outcome.index].start, a)
              && (forall j :: 0 <= j < outcome.index ==> !Handles(vmas[j].kind, vmas[j].start, a))
              && Grown(old(m.mem), old(m.role), m.mem, m.role, m.cr3,
                       GrowPage(a, PageOf(old(vmas[outcome.index].end))))
              && PageOf(vmas[outcome.index].end) == GrowPage(a, PageOf(old(vmas[outcome.index].end))) + 1
              && (forall v :: v in vmas && v != vmas[outcome.index] ==> v.end == old(v.end))
    ensures ok && (outcome.Halted? || outcome.Returned?) ==>
              && (outcome.Halted? <==> !protection)
              && m.mem == old(m.mem) && m.role == old(m.role) && (forall v :: v in vmas ==> v.end == old(v.end))
  {
    hide FrameAllocator.IsFreeList, FrameAllocator.FreeSet, Walk, PathOf, TreeOk, KernelOk;
    if protection && write {
      var leaf := Walk(m.mem, m.cr3, PathOf(a));
      assert CopyOnWrite(leaf) by { assert LeafTyped(m.role, m.cr3, PathOf(a), leaf); }
      if CopyOnWrite(leaf) {
        ok := CowFault(m, PathOf(a));
        return ok, Copied;
      }
    }
    var i := FindRegion(a, vmas);
    if i < |vmas| {
      ok := HeapFault(m, a, vmas[i]);
      return ok, Extended(i);
    }
    if !protection {
      return true, Halted;
    }
    return true, Returned;
  }

  /** The loop of pageFault over the regions, up to the one it stops at. */
  method FindRegion(a: nat, vmas: seq<Vma>) returns (i: nat)
    requires forall v :: v in vmas ==> v.end < TWO48
    ensures i <= |vmas| && forall j :: 0 <= j < i ==> !Handles(vmas[j].kind, vmas[j].start, a)
    ensures i < |vmas| ==> Handles(vmas[i].kind, vmas[i].start, a)
  {
    i := 0;
    while i < |vmas|
      invariant 0 <= i <= |vmas|
      invariant forall j :: 0 <= j < i ==> !Handles(vmas[j].kind, vmas[j].start, a)
    {
      var v := vmas[i];
      if Handles(v.kind, v.start, a) {
        return;
      }
      StackBranchDead(a, v.start, v.end);
      if v.kind == STACK && StackBranch(a, v.start, v.end) {
        return;
      }
      i := i + 1;
    }
  }

  // ------------------------------------------------------- access by access

  /** What becomes of an access: the process stops for good, or the access is made, with
      the heap mapped up to page `end`. */
  datatype Reach = Stopped | Upto(end: nat)

  /** Address `a` is mapped: in a page of the program, or in the heap below page `end`. */
  predicate IsMapped(program: set<nat>, end: nat, a: nat) {
    PageOf(a) in program || PageOf(HEAP_START) <= PageOf(a) < end
  }

  function TouchByte(program: set<nat>, end: nat, a: nat): Reach {
    if IsMapped(program, end, a) then Upto(end)
    else if Handles(HEAP, HEAP_START, a) then Upto(PageOf(a) + 1)
    else Stopped
  }

  lemma MappedIff(mem: Memory, r: nat, end: nat, a: nat)
    requires HeapTidy(mem, r, end) && a < TWO47
    ensures IsMapped(ProgramPages(mem, r), end, a) <==> Mapped(mem, r, PageOf(a))
    ensures !IsMapped(ProgramPages(mem, r), end, a) && Handles(HEAP, HEAP_START, a) ==> end <= PageOf(a)
  {
    if HeapPage(PageOf(a)) {
    } else {
      assert PageOf(a) in ProgramPages(mem, r) <==> Mapped(mem, r, PageOf(a));
    }
  }

  /** An access by a process whose heap is tidy is made, after faults if need be, or stops
      the process, exactly as TouchByte says. */
  method Access(m: Machine, a: nat, vmas: seq<Vma>, h: nat) returns (ok: bool, reached: bool)
    requires Sound(m) && a < TWO47
    requires h < |vmas| && vmas[h].kind == HEAP && vmas[h].start == HEAP_START
    requires forall j :: 0 <= j < |vmas| && j != h ==> vmas[j].kind != HEAP && vmas[j] != vmas[h]
    requires forall v :: v in vmas ==> v.end < TWO48
    requires vmas[h].end % TWO12 == 0 && HeapTidy(m.mem, m.cr3, PageOf(vmas[h].end))
    modifies m`mem, m`role, m.pages`firstFree, m.pages.pageMap, (set v | v in vmas)`end
    ensures !ok ==> m.Exhausted()
    ensures ok ==> Sound(m) && HeapTidy(m.mem, m.cr3, PageOf(vmas[h].end))
    ensures ok ==> ProgramPages(m.mem, m.cr3) == ProgramPages(old(m.mem), m.cr3)
    ensures ok ==>
              TouchByte(ProgramPages(old(m.mem), m.cr3), PageOf(old(vmas[h].end)), a) ==
              if reached then Upto(PageOf(vmas[h].end)) else Stopped
    ensures ok ==> (reached <==> Present(Walk(m.mem, m.cr3, PathOf(a))))
  {
    hide FrameAllocator.IsFreeList, FrameAllocator.FreeSet, Walk, PathOf, TreeOk, KernelOk, LeafOk, Remapped;
    PagePathOf(a);
    MappedIff(m.mem, m.cr3, PageOf(vmas[h].end), a);
    ok, reached := true, true;
    if Present(Walk(m.mem, m.cr3, PathOf(a))) {
      return;
    }
    if Handles(HEAP, HEAP_START, a) {
      var rounds;
      ok, rounds := TouchHeap(m, a, vmas[h]);
      return;
    }
    var outcome;
    ok, outcome := PageFault(m, a, false, true, vmas);
    reached := false;
  }

  // ------------------------------------------------ what fork does to regions

  /** The region list copy of forkSyscall.  Only the first copy is linked to the
      child; its link still leads to the parent's second region, so all regions
      but the first, the heap among them, are shared by parent and child. */
  method CopyRegions(first: Vma?, ghost nodes: seq<Vma>) returns (head: Vma?)
    requires IsChain(first, nodes)
    ensures IsChain(first, nodes)
    ensures head == null <==> nodes == []
    ensures nodes != [] ==> fresh(head) && head.Contents() == first.Contents()
    ensures |nodes| > 1 ==> head.next == nodes[1]
    ensures |nodes| == 1 ==> head.next == null
  {
    var p: Vma? := first;
    var c: Vma? := null;
    head := null;
    ghost var k := 0;
    while p != null
      invariant 0 <= k <= |nodes| && p == if k < |nodes| then nodes[k] else null
      invariant (c == null <==> k == 0) && (head == null <==> k == 0)
      invariant head != null ==> first != null && fresh(head) && head.next == first.next
      invariant head != null ==> head.Contents() == first.Contents()
      invariant c != null ==> fresh(c) && (k == 1 <==> c == head)
      invariant IsChain(first, nodes)
      decreases |nodes| - k
    {
      assert p.next == After(nodes, k);
      c := new Vma(Region(p.start, p.end, p.flag, p.kind, p.file), p.next);
      if head == null {
        head := c;
      }
      p := p.next;
      k := k + 1;
    }
    if c != null {
      c.next := null;
    }
  }

  ghost predicate IsChain(first: Vma?, nodes: seq<Vma>)
    reads nodes`next
  {
    && first == (if nodes == [] then null else nodes[0])
    && forall i :: 0 <= i < |nodes| ==> nodes[i].next == After(nodes, i)
  }

  function After(nodes: seq<Vma>, i: nat): Vma? { if i + 1 < |nodes| then nodes[i + 1] else null }

  /** Fork as far as the heap is concerned: the pages are shared, so both heaps are tidy up
      to the same end, and both region lists lead to one heap record. */
  method ForkHeap(m: Machine, first: Vma?, ghost nodes: seq<Vma>, ghost k: nat)
    returns (ok: bool, child: nat, head: Vma?, ghost nodes': seq<Vma>)
    requires Sound(m) && IsChain(first, nodes) && 1 <= k < |nodes|
    requires HeapTidy(m.mem, m.cr3, PageOf(nodes[k].end))
    modifies m`mem, m`role, m.pages`firstFree, m.pages.pageMap
    ensures !ok ==> m.Exhausted()
    ensures ok ==> Sound(m) && IsRoot(m.role, child) && child != m.cr3
    ensures ok ==> HeapTidy(m.mem, m.cr3, PageOf(nodes[k].end)) && HeapTidy(m.mem, child, PageOf(nodes[k].end))
    ensures ok ==> IsChain(first, nodes) && IsChain(head, nodes') && |nodes'| == |nodes| && nodes'[k] == nodes[k]
  {
    hide FrameAllocator.IsFreeList, FrameAllocator.FreeSet, Walk, PathOf, TreeOk, KernelOk, LeafOk, Tight, FreeFrames,
         Fork.CountRoot;
    head, nodes' := null, [];
    ghost var mem0, role0, end := m.mem, m.role, PageOf(nodes[k].end);
    ok, child := ForkTables(m);
    if !ok { return; }
    forall x: nat | HeapPage(x)
      ensures Mapped(m.mem, m.cr3, x) <==> Mapped(mem0, m.cr3, x)
      ensures Mapped(m.mem, child, x) <==> Mapped(mem0, m.cr3, x)
    {
      PagePathOf(x * TWO12);
      SharedLeaf(Walk(mem0, m.cr3, PagePath(x)));
    }
    head := CopyRegions(first, nodes);
    nodes' := [head] + nodes[1..];
    OtherHead(first, nodes, head, nodes');
  }

  /** Another first record in front of the same rest. */
  lemma OtherHead(first: Vma?, nodes: seq<Vma>, head: Vma, nodes': seq<Vma>)
    requires IsChain(first, nodes) && |nodes| > 1 && head.next == nodes[1]
    requires |nodes'| == |nodes| && nodes'[0] == head && forall i :: 1 <= i < |nodes| ==> nodes'[i] == nodes[i]
    ensures IsChain(head, nodes')
  {
    forall i | 0 <= i < |nodes'| ensures nodes'[i].next == After(nodes', i) {
      assert nodes[i].next == After(nodes, i) && nodes'[1] == nodes[1];
    }
  }

  lemma SharedLeaf(w: Word)
    ensures Present(ParentLeaf(w)) == Present(w) && Present(ChildLeaf(w)) == Present(w)
  { }

  /** After a fork a mapped page is lost: the child grows its heap to four pages, the parent
      touches its second page, which pulls the recorded end back, and the child's next
      growth maps a fresh, empty page over its third. */
  method SharedEndRun(m: Machine, first: Vma?, ghost nodes: seq<Vma>, heap: Vma, ghost k: nat)
    returns (ok: bool, child: nat, ghost before: Word)
    requires Sound(m) && IsChain(first, nodes) && 1 <= k < |nodes| && nodes[k] == heap
    requires heap.end == HEAP_START + TWO12 && HeapTidy(m.mem, m.cr3, PageOf(heap.end))
    modifies m`mem, m`role, m`cr3, m.pages`firstFree, m.pages.pageMap, heap`end
    ensures ok ==> Present(before) && Walk(m.mem, child, PagePath(0x8002)) != before
    ensures !ok ==> m.Exhausted()
  {
    hide FrameAllocator.IsFreeList, FrameAllocator.FreeSet, Walk, PathOf, TreeOk, KernelOk, IsChain, NothingReplaced;
    before := ZERO;
    var parent, head := m.cr3, null;
    ghost var nodes';
    ok, child, head, nodes' := ForkHeap(m, first, nodes, k);
    if !ok { return; }
    ok, before := LoseThirdPage(m, parent, child, heap);
  }

  /** The three faults, on the record that both lists lead to. */
  method LoseThirdPage(m: Machine, parent: nat, child: nat, heap: Vma) returns (ok: bool, ghost before: Word)
    requires Sound(m) && IsRoot(m.role, parent) && IsRoot(m.role, child) && parent != child
    requires heap.end == HEAP_START + TWO12
    requires HeapTidy(m.mem, parent, PageOf(heap.end)) && HeapTidy(m.mem, child, PageOf(heap.end))
    modifies m`mem, m`role, m`cr3, m.pages`firstFree, m.pages.pageMap, heap`end
    ensures ok ==> Present(before) && Walk(m.mem, child, PagePath(0x8002)) != before
    ensures !ok ==> m.Exhausted()
  {
    hide FrameAllocator.IsFreeList, FrameAllocator.FreeSet, Walk, PathOf, TreeOk, KernelOk;
    before := ZERO;
    m.cr3 := child;
    var n;
    ok, n := TouchHeap(m, 0x0800_3000, heap);
    if !ok { return; }
    before := Walk(m.mem, child, PagePath(0x8002));
    assert HeapPage(0x8002) && Mapped(m.mem, child, 0x8002);
    ghost var mem1, role1 := m.mem, m.role;
    m.cr3 := parent;
    ok := HeapFault(m, 0x0800_1000, heap);
    if !ok { return; }
    PagePathOf(0x0800_2000);
    PagePathsDiffer(0x8001, 0x8002);
    ghost var mem2, role2 := m.mem, m.role;
    assert Walk(mem2, child, PagePath(0x8002)) == before;
    m.cr3 := child;
    ok := HeapFault(m, 0x0800_4000, heap);
    if !ok { return; }
    ghost var f :| Remapped(mem2, role2, m.mem, m.role, child, PagePath(0x8002), f, ZeroFrame());
    assert LeafTyped(role2, child, PagePath(0x8002), before);
  }
}
