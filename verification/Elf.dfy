/** The program loader (sys/elf64.c; program headers as in chapter 5 of the System V
    ABI), run on the machine: pages come from the frame allocator and go through the
    page tables, and bytes are stored in the words of frames. */
module Elf {
  import opened Integers
  import opened Paging
  import opened Spaces
  import opened Mmu
  import opened Kernel
  import opened Tables
  import Runs
  import opened Heap
  import FrameAllocator

  const PT_LOAD: nat := 1
  const USER_STACK_TOP: nat := 0x222_2200_0000

  datatype Phdr = Phdr(kind: nat, flags: nat, offset: nat, vaddr: nat, filesz: nat, memsz: nat)

  // --------------------------------------------------- what loading means

  /** The segment's bytes are copied from the file. */
  predicate Copied(ph: Phdr) { ph.flags == 5 || ph.flags == 6 }

  predicate Loadable(ph: Phdr) { ph.kind == PT_LOAD }

  /** The first and last page the loader maps for a segment. */
  function FirstPage(ph: Phdr): nat { PageOf(ph.vaddr) }
  function LastPage(ph: Phdr): nat { PageOf(ph.vaddr + ph.memsz) }

  predicate Covers(ph: Phdr, a: nat) {
    Loadable(ph) && FirstPage(ph) <= PageOf(a) <= LastPage(ph)
  }

  /** The ABI's demand on a segment that is copied: its file part is inside the
      file and no larger than its memory part. */
  predicate InFile(file: seq<Byte>, ph: Phdr) {
    Loadable(ph) && Copied(ph) ==> ph.filesz <= ph.memsz && ph.offset + ph.filesz <= |file|
  }

  /** A segment of the users' half. */
  predicate InUserHalf(ph: Phdr) { Loadable(ph) ==> ph.vaddr + ph.memsz < TWO47 }

  /** What the pages of one segment hold: its file bytes, and zero around them. */
  function SegmentByte(file: seq<Byte>, ph: Phdr, a: nat): Byte
    requires Loadable(ph) && InFile(file, ph)
  {
    if Copied(ph) && ph.vaddr <= a < ph.vaddr + ph.filesz then file[ph.offset + (a - ph.vaddr)] else 0
  }

  /** The byte at address `a` after the given segments are loaded in turn into an
      empty space: the last segment that covers the page of `a` decides. */
  function Image(file: seq<Byte>, phs: seq<Phdr>, a: nat): Option<Byte>
    requires forall k :: 0 <= k < |phs| ==> InFile(file, phs[k])
    decreases |phs|
  {
    if phs == [] then None else
    var ph := phs[|phs| - 1];
    if Covers(ph, a) then Some(SegmentByte(file, ph, a)) else Image(file, phs[..|phs| - 1], a)
  }

  /** The finished program: on top of the segments, an empty stack page and an
      empty heap page. */
  function Program(file: seq<Byte>, phs: seq<Phdr>, a: nat): Option<Byte>
    requires forall k :: 0 <= k < |phs| ==> InFile(file, phs[k])
  {
    if PageOf(a) == PageOf(USER_STACK_TOP) || PageOf(a) == PageOf(HEAP_START) then Some(0)
    else Image(file, phs, a)
  }

  function TypeOf(ph: Phdr): Kind {
    if ph.flags == 5 then TEXT else if ph.flags == 6 then DATA else NOTYPE
  }

  function RegionOf(ph: Phdr): Region {
    Region(ph.vaddr, ph.vaddr + ph.memsz, ph.flags, TypeOf(ph),
           Some(FileRef(ph.offset, ph.filesz, if ph.flags == 6 then ph.memsz - ph.filesz else 0)))
  }

  const STACK_REGION := Region(USER_STACK_TOP + TWO12, USER_STACK_TOP, 5, STACK, None)
  const HEAP_REGION := Region(HEAP_START, HEAP_START + TWO12, 5, HEAP, None)

  /** One region for each loadable segment, in order. */
  function Regions(phs: seq<Phdr>): seq<Region>
    decreases |phs|
  {
    if phs == [] then [] else
    var ph := phs[|phs| - 1];
    Regions(phs[..|phs| - 1]) + if Loadable(ph) then [RegionOf(ph)] else []
  }

  // ------------------------------------------------ segments that do not meet

  predicate KeepApart(p: Phdr, q: Phdr) {
    LastPage(p) < FirstPage(q) || LastPage(q) < FirstPage(p)
  }

  predicate Within(ph: Phdr, page: nat) { FirstPage(ph) <= page <= LastPage(ph) }

  /** Pages of later segments that leave a segment alone leave its bytes alone. */
  lemma {:induction false} ImageOfSegment(file: seq<Byte>, phs: seq<Phdr>, k: nat, a: nat)
    requires forall j :: 0 <= j < |phs| ==> InFile(file, phs[j])
    requires k < |phs| && Covers(phs[k], a)
    requires forall j :: k < j < |phs| && Loadable(phs[j]) ==> !Within(phs[j], PageOf(a))
    ensures Image(file, phs, a) == Some(SegmentByte(file, phs[k], a))
    decreases |phs|
  {
    if k == |phs| - 1 {
    } else {
      var shorter := phs[..|phs| - 1];
      assert shorter[k] == phs[k];
      ImageOfSegment(file, shorter, k, a);
    }
  }

  /** When the segments keep apart from each other and from the stack and heap page,
      every address of every segment of type 1 is mapped; the file bytes of a segment with
      flags 5 or 6 are found at their addresses, and all else reads as zero. */
  lemma {:induction false} FileBytesReadBack(file: seq<Byte>, phs: seq<Phdr>, k: nat, a: nat)
    requires forall j :: 0 <= j < |phs| ==> InFile(file, phs[j])
    requires k < |phs| && phs[k].kind == 1
    requires forall j :: 0 <= j < |phs| && j != k && phs[j].kind == 1 ==> KeepApart(phs[k], phs[j])
    requires !Within(phs[k], PageOf(USER_STACK_TOP)) && !Within(phs[k], PageOf(HEAP_START))
    requires phs[k].vaddr <= a <= phs[k].vaddr + phs[k].memsz
    ensures Program(file, phs, a).Some?
    ensures (phs[k].flags == 5 || phs[k].flags == 6) && a < phs[k].vaddr + phs[k].filesz ==>
              && phs[k].offset + (a - phs[k].vaddr) < |file|
              && Program(file, phs, a) == Some(file[phs[k].offset + (a - phs[k].vaddr)])
    ensures phs[k].vaddr + phs[k].filesz <= a || (phs[k].flags != 5 && phs[k].flags != 6) ==>
              Program(file, phs, a) == Some(0)
  {
    var ph := phs[k];
    assert Covers(ph, a) by {
      assert PageOf(ph.vaddr) <= PageOf(a) <= PageOf(ph.vaddr + ph.memsz);
    }
    ImageOfSegment(file, phs, k, a);
  }

  /** Page number `x` belongs to the memory of a segment of type 1. */
  predicate OfSegment(ph: Phdr, x: nat) {
    ph.kind == 1 && ph.vaddr / 4096 <= x <= (ph.vaddr + ph.memsz) / 4096
  }

  /** Mapped are the stack page, the heap page and the pages of the segments, no others; the
      first two are empty. */
  lemma ProgramMaps(file: seq<Byte>, phs: seq<Phdr>, a: nat)
    requires forall k :: 0 <= k < |phs| ==> InFile(file, phs[k])
    ensures Program(file, phs, a).Some? <==>
            || a / 4096 == 0x2222_2000 || a / 4096 == 0x8000
            || exists k :: 0 <= k < |phs| && OfSegment(phs[k], a / 4096)
    ensures a / 4096 == 0x2222_2000 || a / 4096 == 0x8000 ==> Program(file, phs, a) == Some(0)
  {
    ImageMaps(file, phs, a);
  }

  lemma {:induction false} ImageMaps(file: seq<Byte>, phs: seq<Phdr>, a: nat)
    requires forall k :: 0 <= k < |phs| ==> InFile(file, phs[k])
    ensures Image(file, phs, a).Some? <==> exists k :: 0 <= k < |phs| && OfSegment(phs[k], a / 4096)
    decreases |phs|
  {
    if phs == [] {
    } else {
      var n := |phs| - 1;
      var shorter := phs[..n];
      ImageMaps(file, shorter, a);
      assert Covers(phs[n], a) <==> OfSegment(phs[n], a / 4096);
      if k :| 0 <= k < n && OfSegment(phs[k], a / 4096) { assert shorter[k] == phs[k]; }
    }
  }

  /** A region lies where its segment lies and names its file part; what it lacks of a data
      segment is its bss.  Text has flags 5, data 6. */
  lemma RegionDescribes(ph: Phdr)
    ensures var r := RegionOf(ph);
            && r.start == ph.vaddr && r.end == ph.vaddr + ph.memsz && r.flag == ph.flags
            && r.file.Some? && r.file.value.pgoff == ph.offset && r.file.value.size == ph.filesz
            && (ph.flags == 6 ==> r.kind == DATA && r.file.value.size + r.file.value.bss == r.end - r.start)
            && (ph.flags == 5 ==> r.kind == TEXT && r.file.value.bss == 0)
            && (ph.flags != 5 && ph.flags != 6 ==> r.kind == NOTYPE && r.file.value.bss == 0)
  { }

  /** Regions come in the order of the headers of type 1, and stack and heap lie where they do. */
  lemma RegionsInOrder(phs: seq<Phdr>, ph: Phdr)
    ensures Regions([]) == [] && Regions(phs + [ph]) == Regions(phs) + if ph.kind == 1 then [RegionOf(ph)] else []
    ensures STACK_REGION == Region(0x222_2200_1000, 0x222_2200_0000, 5, STACK, None)
    ensures HEAP_REGION == Region(0x0800_0000, 0x0800_1000, 5, HEAP, None)
  {
    assert (phs + [ph])[..|phs|] == phs;
  }

  // ------------------------------------------------------- bytes in words

  /** The 64 bits of a word as a number. */
  function Num(w: Word): nat { w.page * TWO12 + w.low as nat }

  function FromNum(n: nat): (w: Word)
    ensures Num(w) == n
  {
    Word(n / TWO12, LowBits(n % TWO12))
  }

  /** The twelve bits of a number below 4096, counted up. */
  function LowBits(n: nat): (low: bv12)
    requires n < TWO12
    ensures low as nat == n
  {
    if n == 0 then 0 else
    NextBits(LowBits(n - 1));
    LowBits(n - 1) + 1
  }

  lemma NextBits(low: bv12)
    requires low as nat < TWO12 - 1
    ensures (low + 1) as nat == low as nat + 1
  { }

  /** The byte at address `a` of a private memory. */
  ghost function ByteAt(e: Private, a: nat): Option<Byte> {
    var p, off := PathOf(a), a % TWO12 / 8;
    if p in e && off < |e[p]| then Some(Digit(Num(e[p][off]), a % 8)) else None
  }

  /** Words are little-endian. */
  lemma ByteIs(e: Private, a: nat)
    requires PathOf(a) in e && |e[PathOf(a)]| == 512
    ensures var w := e[PathOf(a)][a % 4096 / 8];
            ByteAt(e, a) == Some((w.page * 4096 + w.low as nat) / Pow256(a % 8) % 256)
  {
    DigitIs(Num(e[PathOf(a)][a % 4096 / 8]), a % 8);
  }

  /** A new empty page shows zero bytes; all others are as before. */
  lemma ZeroPageBytes(e: Private, x: nat, a: nat)
    requires x * TWO12 < TWO47 && a < TWO47
    ensures ByteAt(e[PagePath(x) := ZeroFrame()], a) == if PageOf(a) == x then Some(0) else ByteAt(e, a)
  {
    hide PathOf;
    SamePathSamePage(a, x * TWO12);
    assert x * TWO12 / TWO12 == x;
    DigitOfZero(a % 8);
  }

  /** A byte stored in its word. */
  lemma StoredByte(e: Private, a: nat, w: Word, b: Byte, a': nat)
    requires a < TWO47 && a' < TWO47 && PathOf(a) in e && |e[PathOf(a)]| == ENTRIES
    requires w == e[PathOf(a)][a % TWO12 / 8]
    ensures var e' := e[PathOf(a) := e[PathOf(a)][a % TWO12 / 8 := FromNum(SetDigit(Num(w), a % 8, b))]];
            ByteAt(e', a') == if a' == a then Some(b) else ByteAt(e, a')
  {
    hide PathOf, Num, FromNum, Digit, SetDigit;
    SamePathSamePage(a, a');
    if PageOf(a) == PageOf(a') && a % TWO12 / 8 == a' % TWO12 / 8 {
      SameWord(a, a');
      DigitSet(Num(w), a % 8, b, a' % 8);
    }
  }

  lemma SameWord(a: nat, a': nat)
    requires a / TWO12 == a' / TWO12 && a % TWO12 / 8 == a' % TWO12 / 8
    ensures a % 8 == a' % 8 <==> a == a'
  {
    WordParts(a);
    WordParts(a');
  }

  lemma WordParts(a: nat)
    ensures a == a / TWO12 * TWO12 + a % TWO12 / 8 * 8 + a % 8
  {
    assert a % TWO12 == a % TWO12 / 8 * 8 + a % TWO12 % 8;
    assert a % TWO12 % 8 == a % 8;
  }

  // ---------------------------------------------------------- what it costs

  /** The pages of a space after `n` pages from number `x` on are mapped. */
  ghost function WithPages(pages: PageSet, x: nat, n: nat): PageSet
    decreases n
  {
    if n == 0 then pages else WithPages(pages + iset{PagePath(x)}, x + 1, n - 1)
  }

  /** The frames that takes: the pages, and the tables missing on the way to each in turn. */
  ghost function PagesCost(pages: PageSet, x: nat, n: nat): nat
    decreases n
  {
    if n == 0 then 0 else
    1 + MissingFor(pages, PagePath(x)) + PagesCost(pages + iset{PagePath(x)}, x + 1, n - 1)
  }

  function PageCount(ph: Phdr): nat { LastPage(ph) - FirstPage(ph) + 1 }

  ghost function SegmentPages(pages: PageSet, ph: Phdr): PageSet {
    if Loadable(ph) then WithPages(pages, FirstPage(ph), PageCount(ph)) else pages
  }

  /** Two records for a loadable segment, and its pages. */
  ghost function SegmentCost(pages: PageSet, ph: Phdr): nat {
    if Loadable(ph) then 2 + PagesCost(pages, FirstPage(ph), PageCount(ph)) else 0
  }

  ghost function SegmentsPages(pages: PageSet, phs: seq<Phdr>): PageSet
    decreases |phs|
  {
    if phs == [] then pages else SegmentsPages(SegmentPages(pages, phs[0]), phs[1..])
  }

  ghost function SegmentsCost(pages: PageSet, phs: seq<Phdr>): nat
    decreases |phs|
  {
    if phs == [] then 0 else SegmentCost(pages, phs[0]) + SegmentsCost(SegmentPages(pages, phs[0]), phs[1..])
  }

  /** Stack and heap: a record and a page each. */
  ghost function AreaCost(pages: PageSet, address: nat): nat { 2 + MissingFor(pages, PagePath(PageOf(address))) }

  ghost function AreasCost(pages: PageSet): nat {
    AreaCost(pages, USER_STACK_TOP) + AreaCost(pages + iset{PagePath(PageOf(USER_STACK_TOP))}, HEAP_START)
  }

  /** What loading a program into a space with these pages takes. */
  ghost function LoadCost(pages: PageSet, phs: seq<Phdr>): nat {
    SegmentsCost(pages, phs) + AreasCost(SegmentsPages(pages, phs))
  }

  /** A program of one text page at 4 MiB takes 14 frames: its page with two records and
      three tables, the stack page with a record and three tables, the heap page with a
      record and one table. */
  lemma OnePageProgram(size: nat)
    requires size < 4096
    ensures LoadCost(iset{}, [Phdr(1, 5, 0, 0x40_0000, size, size)]) == 14
  {
    var ph := Phdr(1, 5, 0, 0x40_0000, size, size);
    var p, s, h := Path(0, 0, 2, 0), Path(4, 136, 272, 0), Path(0, 0, 64, 0);
    assert PagePath(0x400) == p && PagePath(PageOf(USER_STACK_TOP)) == s && PagePath(PageOf(HEAP_START)) == h;
    assert FirstPage(ph) == 0x400 && PageCount(ph) == 1;
    var none: PageSet := iset{};
    NoPage(none + iset{p}, 0x401);
    OnePage(none, 0x400, 1);
    assert SegmentCost(none, ph) == 6 && SegmentPages(none, ph) == iset{p};
    assert [ph][1..] == [] && SegmentsPages(iset{p}, []) == iset{p} && SegmentsCost(iset{p}, []) == 0;
    assert SegmentsCost(none, [ph]) == 6 && SegmentsPages(none, [ph]) == iset{p};
    assert MissingFor(iset{p}, s) == 3;
    assert p in iset{p} + iset{s};
    assert Below3(iset{p} + iset{s}, 0, 0) && !Below2(iset{p} + iset{s}, 0, 0, 64);
  }

  // ------------------------------------------------------------ the loader

  /** Process `pid` runs. */
  ghost predicate Running(m: Machine, spaces: seq<nat>, e: seq<Private>, pid: nat)
    reads m, m.pages, m.pages.pageMap
  {
    Neat(m) && Refines(m.mem, m.role, spaces, e) && pid < |e| == |spaces| && m.cr3 == spaces[pid]
  }

  /** The pages from `lo` up to, not including, `hi` can be written. */
  ghost predicate WritablePages(mem: Memory, r: nat, lo: nat, hi: nat) {
    forall x: nat :: lo <= x < hi ==> CanWrite(mem, r, PagePath(x))
  }

  /** One byte of the kernel's memcpy, into a page that can be written. */
  method WriteByte(m: Machine, a: nat, b: Byte, ghost spaces: seq<nat>, ghost e: seq<Private>, ghost pid: nat)
    returns (ghost e': Private)
    requires Running(m, spaces, e, pid) && a < TWO47 && CanWrite(m.mem, m.cr3, PathOf(a))
    modifies m`mem
    ensures Running(m, spaces, e[pid := e'], pid) && SameUserWalks(old(m.mem), m.mem, m.role)
    ensures e'.Keys == e[pid].Keys
    ensures forall a': nat :: a' < TWO47 ==> ByteAt(e', a') == if a' == a then Some(b) else ByteAt(e[pid], a')
  {
    hide FrameAllocator.IsFreeList, FrameAllocator.FreeSet, Walk, TreeOk, KernelOk, LeafOk, Refines, Tight, PathOf,
         ByteAt, SoleMapping, Num, FromNum, SetDigit, Machine.Valid, SameUserWalks;
    var p, off := PathOf(a), a % TWO12 / 8;
    PagePathOf(a);
    Runs.PresentIff(m.mem, m.role, spaces, e, pid, p);
    WritableIsSole(m.mem, m.role, spaces, e, pid, p);
    var seen := Runs.UserLoad(m, p, off, spaces, e, pid);
    var w := FromNum(SetDigit(Num(seen.w), a % 8, b));
    var obs := Runs.KernelStore(m, p, off, w, spaces, e, pid);
    e' := e[pid][p := e[pid][p][off := w]];
    assert e'.Keys == e[pid].Keys;
    forall a': nat | a' < TWO47 ensures ByteAt(e', a') == if a' == a then Some(b) else ByteAt(e[pid], a') {
      StoredByte(e[pid], a, seen.w, b, a');
    }
  }

  /** allocatePage and map_v_p2: an empty page at page `x`. */
  method MapEmpty(m: Machine, x: nat, ghost spaces: seq<nat>, ghost e: seq<Private>, ghost pid: nat)
    returns (ok: bool, ghost e': Private)
    requires Running(m, spaces, e, pid) && x * TWO12 < TWO47
    modifies m`mem, m`role, m.pages`firstFree, m.pages.pageMap
    ensures ok ==> Running(m, spaces, e[pid := e'], pid) && e'.Keys == e[pid].Keys + iset{PagePath(x)}
    ensures ok ==> forall q :: IsRoot(old(m.role), q) ==> IsRoot(m.role, q)
    ensures ok ==> forall a: nat :: a < TWO47 ==>
              ByteAt(e', a) == if PageOf(a) == x then Some(0) else ByteAt(e[pid], a)
    ensures ok ==> CanWrite(m.mem, m.cr3, PagePath(x))
    ensures ok ==> forall y: nat :: y * TWO12 < TWO47 && y != x ==>
              CanWrite(m.mem, m.cr3, PagePath(y)) == CanWrite(old(m.mem), m.cr3, PagePath(y))
    ensures Runs.Paid(old(m.role), m.role, 1 + MissingFor(e[pid].Keys, PagePath(x)), ok)
    ensures !ok ==> m.Exhausted()
  {
    hide FrameAllocator.IsFreeList, FrameAllocator.FreeSet, Walk, TreeOk, KernelOk, LeafOk, Refines, Tight, PathOf,
         ByteAt, Machine.Valid, Machine.Exhausted, MissingFor, Runs.Paid;
    PagePathOf(x * TWO12);
    ok := Runs.NewPage(m, PagePath(x), spaces, e, pid);
    e' := e[pid][PagePath(x) := ZeroFrame()];
    if ok {
      forall a: nat | a < TWO47 ensures ByteAt(e', a) == if PageOf(a) == x then Some(0) else ByteAt(e[pid], a) {
        ZeroPageBytes(e[pid], x, a);
      }
      forall y: nat | y * TWO12 < TWO47 && y != x
        ensures CanWrite(m.mem, m.cr3, PagePath(y)) == CanWrite(old(m.mem), m.cr3, PagePath(y))
      {
        PagePathOf(y * TWO12);
        PagePathsDiffer(x, y);
      }
    }
  }

  /** The loop of loadElf over the pages of a segment. */
  method MapSegment(m: Machine, ph: Phdr, ghost spaces: seq<nat>, ghost e: seq<Private>, ghost pid: nat)
    returns (ok: bool, ghost e': Private)
    requires Running(m, spaces, e, pid) && ph.vaddr + ph.memsz < TWO47
    modifies m`mem, m`role, m.pages`firstFree, m.pages.pageMap
    ensures ok ==> Running(m, spaces, e[pid := e'], pid)
    ensures ok ==> e'.Keys == WithPages(e[pid].Keys, FirstPage(ph), PageCount(ph))
    ensures ok ==> forall q :: IsRoot(old(m.role), q) ==> IsRoot(m.role, q)
    ensures ok ==> forall a: nat :: a < TWO47 ==>
              ByteAt(e', a) == if Within(ph, PageOf(a)) then Some(0) else ByteAt(e[pid], a)
    ensures ok ==> WritablePages(m.mem, m.cr3, FirstPage(ph), LastPage(ph) + 1)
    ensures Runs.Paid(old(m.role), m.role, PagesCost(e[pid].Keys, FirstPage(ph), PageCount(ph)), ok)
    ensures !ok ==> m.Exhausted()
  {
    hide FrameAllocator.IsFreeList, FrameAllocator.FreeSet, Walk, TreeOk, KernelOk, LeafOk, Refines, Tight, PathOf,
         ByteAt, Machine.Valid, Machine.Exhausted, MissingFor, Runs.Paid, CanWrite, WithPages, PagesCost;
    ok, e' := true, e[pid];
    ghost var pages, role0 := e[pid].Keys, m.role;
    ghost var first, total, spent: nat := FirstPage(ph), PageCount(ph), 0;
    Runs.NothingPaid(m);
    var end := ph.vaddr + ph.memsz;
    var size := ((end / TWO12 * TWO12 + TWO12) - ph.vaddr / TWO12 * TWO12) / TWO12;
    assert size == PageCount(ph);
    var start: nat := ph.vaddr / TWO12 * TWO12;
    assert e[pid := e'] == e;
    while size > 0
      invariant start % TWO12 == 0 && size >= 0
      invariant FirstPage(ph) <= PageOf(start) && PageOf(start) + size == LastPage(ph) + 1
      invariant Running(m, spaces, e[pid := e'], pid)
      invariant forall q :: IsRoot(old(m.role), q) ==> IsRoot(m.role, q)
      invariant forall a: nat :: a < TWO47 ==>
                  ByteAt(e', a) == if FirstPage(ph) <= PageOf(a) < PageOf(start) then Some(0) else ByteAt(e[pid], a)
      invariant WritablePages(m.mem, m.cr3, FirstPage(ph), PageOf(start))
      invariant WithPages(pages, first, total) == WithPages(e'.Keys, PageOf(start), size)
      invariant PagesCost(pages, first, total) == spent + PagesCost(e'.Keys, PageOf(start), size)
      invariant Runs.Paid(role0, m.role, spent, true)
      decreases size
    {
      ghost var cur, role1 := e', m.role;
      ghost var cost := 1 + MissingFor(cur.Keys, PagePath(PageOf(start)));
      OnePage(cur.Keys, PageOf(start), size);
      ok, e' := MapEmpty(m, PageOf(start), spaces, e[pid := cur], pid);
      Runs.PaidBoth(role0, role1, m.role, spent, cost, ok);
      if !ok {
        Runs.PaidMore(role0, m.role, m.role, spent + cost, PagesCost(pages, first, total));
        return;
      }
      spent := spent + cost;
      assert e[pid := cur][pid := e'] == e[pid := e'];
      size := size - 1;
      start := start + TWO12;
    }
    NoPage(e'.Keys, PageOf(start));
  }

  lemma OnePage(pages: PageSet, x: nat, n: nat)
    requires n > 0
    ensures WithPages(pages, x, n) == WithPages(pages + iset{PagePath(x)}, x + 1, n - 1)
    ensures PagesCost(pages, x, n) ==
            1 + MissingFor(pages, PagePath(x)) + PagesCost(pages + iset{PagePath(x)}, x + 1, n - 1)
  { }

  lemma NoPage(pages: PageSet, x: nat)
    ensures WithPages(pages, x, 0) == pages && PagesCost(pages, x, 0) == 0
  { }

  /** memcpy of the file part to its virtual address. */
  method CopySegment(m: Machine, file: seq<Byte>, ph: Phdr,
                     ghost spaces: seq<nat>, ghost e: seq<Private>, ghost pid: nat)
    returns (ghost e': Private)
    requires Running(m, spaces, e, pid) && Loadable(ph) && Copied(ph) && InFile(file, ph) && ph.vaddr + ph.memsz < TWO47
    requires WritablePages(m.mem, m.cr3, FirstPage(ph), LastPage(ph) + 1)
    modifies m`mem
    ensures Running(m, spaces, e[pid := e'], pid) && e'.Keys == e[pid].Keys
    ensures forall a: nat :: a < TWO47 ==>
              ByteAt(e', a) ==
              if ph.vaddr <= a < ph.vaddr + ph.filesz then Some(file[ph.offset + (a - ph.vaddr)]) else ByteAt(e[pid], a)
  {
    hide FrameAllocator.IsFreeList, FrameAllocator.FreeSet, Walk, TreeOk, KernelOk, LeafOk, Refines, Tight, PathOf,
         ByteAt, Machine.Valid, Machine.Exhausted, CanWrite;
    e' := e[pid];
    assert e[pid := e'] == e;
    var i := 0;
    while i < ph.filesz
      invariant 0 <= i <= ph.filesz && Running(m, spaces, e[pid := e'], pid) && e'.Keys == e[pid].Keys
      invariant WritablePages(m.mem, m.cr3, FirstPage(ph), LastPage(ph) + 1)
      invariant forall a: nat :: a < TWO47 ==>
                  ByteAt(e', a) ==
                  if ph.vaddr <= a < ph.vaddr + i then Some(file[ph.offset + (a - ph.vaddr)]) else ByteAt(e[pid], a)
    {
      ghost var cur, mem0 := e', m.mem;
      var a := ph.vaddr + i;
      CopyInside(ph, a);
      PagePathOf(a);
      e' := WriteByte(m, a, file[ph.offset + i], spaces, e[pid := cur], pid);
      assert e[pid := cur][pid := e'] == e[pid := e'];
      KeepWritable(mem0, m.mem, m.role, m.cr3, ph);
      i := i + 1;
    }
  }

  lemma CopyInside(ph: Phdr, a: nat)
    requires ph.filesz <= ph.memsz && ph.vaddr <= a < ph.vaddr + ph.filesz
    ensures Within(ph, PageOf(a))
  { }

  lemma KeepWritable(mem: Memory, mem': Memory, role: Roles, r: nat, ph: Phdr)
    requires SameUserWalks(mem, mem', role) && IsRoot(role, r) && ph.vaddr + ph.memsz < TWO47
    requires WritablePages(mem, r, FirstPage(ph), LastPage(ph) + 1)
    ensures WritablePages(mem', r, FirstPage(ph), LastPage(ph) + 1)
  {
    hide Walk, PathOf;
    forall x: nat | FirstPage(ph) <= x < LastPage(ph) + 1 ensures CanWrite(mem', r, PagePath(x)) {
      PagePathOf(x * TWO12);
      assert x * TWO12 / TWO12 == x && CanWrite(mem, r, PagePath(x));
    }
  }

  /** The pages and the bytes of a loadable segment. */
  method FillSegment(m: Machine, file: seq<Byte>, ph: Phdr,
                     ghost spaces: seq<nat>, ghost e: seq<Private>, ghost pid: nat)
    returns (ok: bool, ghost e': Private)
    requires Running(m, spaces, e, pid) && Loadable(ph) && InFile(file, ph) && InUserHalf(ph)
    modifies m`mem, m`role, m.pages`firstFree, m.pages.pageMap
    ensures ok ==> Running(m, spaces, e[pid := e'], pid)
    ensures ok ==> e'.Keys == WithPages(e[pid].Keys, FirstPage(ph), PageCount(ph))
    ensures ok ==> forall q :: IsRoot(old(m.role), q) ==> IsRoot(m.role, q)
    ensures ok ==> forall a: nat :: a < TWO47 ==>
              ByteAt(e', a) == if Covers(ph, a) then Some(SegmentByte(file, ph, a)) else ByteAt(e[pid], a)
    ensures Runs.Paid(old(m.role), m.role, PagesCost(e[pid].Keys, FirstPage(ph), PageCount(ph)), ok)
    ensures !ok ==> m.Exhausted()
  {
    hide FrameAllocator.IsFreeList, FrameAllocator.FreeSet, Walk, TreeOk, KernelOk, LeafOk, Refines, Tight, PathOf,
         ByteAt, Machine.Valid, Machine.Exhausted, WritablePages, Runs.Paid, WithPages, PagesCost;
    ok, e' := MapSegment(m, ph, spaces, e, pid);
    if !ok { return; }
    if ph.flags == 6 || ph.flags == 5 {
      ghost var e1 := e[pid := e'];
      e' := CopySegment(m, file, ph, spaces, e1, pid);
      assert e1[pid := e'] == e[pid := e'];
    }
    forall a: nat | a < TWO47
      ensures ByteAt(e', a) == if Covers(ph, a) then Some(SegmentByte(file, ph, a)) else ByteAt(e[pid], a)
    {
      if Copied(ph) && ph.vaddr <= a < ph.vaddr + ph.filesz { CopyInside(ph, a); }
    }
  }

  // ------------------------------------------------------ the list of regions

  /** The memory record of a process, cleared as kmalloc leaves it. */
  class Mm {
    var mmap: Vma?
    var current: Vma?
    var vmaCount: nat
    var brk: nat

    constructor ()
      ensures mmap == null && current == null && vmaCount == 0 && brk == 0
    {
      mmap, current, vmaCount, brk := null, null, 0, 0;
    }
  }

  /** The records `nodes`, all different, are linked from `mmap` on, and `current` is the last. */
  ghost predicate MmList(mm: Mm, nodes: seq<Vma>)
    reads mm`mmap, mm`current, nodes`next
  {
    && IsChain(mm.mmap, nodes)
    && (forall i, j :: 0 <= i < j < |nodes| ==> nodes[i] != nodes[j])
    && (nodes != [] ==> mm.current == nodes[|nodes| - 1])
  }

  ghost predicate Say(nodes: seq<Vma>, regions: seq<Region>)
    reads nodes`start, nodes`end, nodes`flag, nodes`kind, nodes`file
  {
    |nodes| == |regions| && forall i :: 0 <= i < |nodes| ==> nodes[i].Contents() == regions[i]
  }

  /** A record linked behind the last, as for a segment. */
  method Append(mm: Mm, v: Vma, ghost nodes: seq<Vma>)
    requires MmList(mm, nodes) && v !in nodes && v.next == null
    modifies mm`mmap, mm`current, mm`vmaCount, (set u | u in nodes)`next
    ensures MmList(mm, nodes + [v]) && mm.vmaCount == old(mm.vmaCount) + 1
  {
    if mm.mmap == null {
      mm.mmap := v;
    } else {
      mm.current.next := v;
    }
    mm.current := v;
    mm.vmaCount := mm.vmaCount + 1;
  }

  /** The record of the stack.  It is stored behind `current` once more, whether there is one
      or not. */
  method AppendStack(mm: Mm, v: Vma, ghost nodes: seq<Vma>) returns (crashed: bool)
    requires MmList(mm, nodes) && v !in nodes && v != mm.current && v.next == null
    modifies mm`mmap, mm`current, (set u | u in nodes)`next, (if mm.current == null then {} else {mm.current})`next
    ensures crashed <==> nodes == [] && old(mm.current) == null
    ensures !crashed ==> MmList(mm, nodes + [v])
    ensures v.next == null
  {
    if mm.mmap == null {
      mm.mmap := v;
    } else {
      mm.current.next := v;
    }
    if mm.current == null {
      return true;
    }
    mm.current.next := v;
    mm.current := v;
    crashed := false;
  }

  /** The record of a segment. */
  method AddRegion(mm: Mm, ph: Phdr, ghost nodes: seq<Vma>) returns (v: Vma)
    requires MmList(mm, nodes)
    modifies mm`mmap, mm`current, mm`vmaCount, (set u | u in nodes)`next
    ensures fresh(v) && v.Contents() == RegionOf(ph) && MmList(mm, nodes + [v])
    ensures mm.vmaCount == old(mm.vmaCount) + 1
  {
    hide MmList, IsChain;
    v := new Vma(Region(ph.vaddr, ph.vaddr + ph.memsz, ph.flags, TEXT, None), null);
    Append(mm, v, nodes);
    v.file := Some(FileRef(ph.offset, ph.filesz, if ph.flags == 6 then ph.memsz - ph.filesz else 0));
    v.kind := if ph.flags == 5 then TEXT else if ph.flags == 6 then DATA else NOTYPE;
  }

  /** A loadable segment in memory: a kernel page for its record, its pages with their bytes,
      and a kernel page for the record of its file. */
  method PlaceSegment(m: Machine, file: seq<Byte>, ph: Phdr,
                      ghost spaces: seq<nat>, ghost e: seq<Private>, ghost pid: nat)
    returns (ok: bool, ghost e': Private)
    requires Running(m, spaces, e, pid) && Loadable(ph) && InFile(file, ph) && InUserHalf(ph)
    modifies m`mem, m`role, m.pages`firstFree, m.pages.pageMap
    ensures ok ==> Running(m, spaces, e[pid := e'], pid) && e'.Keys == SegmentPages(e[pid].Keys, ph)
    ensures ok ==> forall q :: IsRoot(old(m.role), q) ==> IsRoot(m.role, q)
    ensures ok ==> forall a: nat :: a < TWO47 ==>
              ByteAt(e', a) == if Covers(ph, a) then Some(SegmentByte(file, ph, a)) else ByteAt(e[pid], a)
    ensures Runs.Paid(old(m.role), m.role, SegmentCost(e[pid].Keys, ph), ok)
    ensures !ok ==> m.Exhausted()
  {
    hide FrameAllocator.IsFreeList, FrameAllocator.FreeSet, Walk, TreeOk, KernelOk, LeafOk, Refines, Tight, PathOf,
         ByteAt, Machine.Valid, Machine.Exhausted, Runs.Paid, SameUserTables, SameUserWalks, WithPages, PagesCost,
         SegmentByte, Covers;
    e' := e[pid];
    ghost var role0, cost := m.role, PagesCost(e[pid].Keys, FirstPage(ph), PageCount(ph));
    ok := Runs.KernelPages(m, 1, spaces, e);
    if !ok {
      Runs.PaidMore(role0, m.role, m.role, 1, 2 + cost);
      return;
    }
    ghost var role1 := m.role;
    ok, e' := FillSegment(m, file, ph, spaces, e, pid);
    Runs.PaidBoth(role0, role1, m.role, 1, cost, ok);
    if !ok {
      Runs.PaidMore(role0, m.role, m.role, 1 + cost, 2 + cost);
      return;
    }
    ghost var role2 := m.role;
    ok := Runs.KernelPages(m, 1, spaces, e[pid := e']);
    Runs.PaidBoth(role0, role2, m.role, 1 + cost, 1, ok);
  }

  /** One round of loadElf's loop over the program headers. */
  method LoadSegment(m: Machine, mm: Mm, file: seq<Byte>, ph: Phdr,
                     ghost nodes: seq<Vma>, ghost spaces: seq<nat>, ghost e: seq<Private>, ghost pid: nat)
    returns (ok: bool, ghost nodes': seq<Vma>, ghost e': Private)
    requires Running(m, spaces, e, pid) && InFile(file, ph) && InUserHalf(ph) && MmList(mm, nodes)
    modifies m`mem, m`role, m.pages`firstFree, m.pages.pageMap
    modifies mm`mmap, mm`current, mm`vmaCount, (set u | u in nodes)`next
    ensures ok ==> Running(m, spaces, e[pid := e'], pid) && e'.Keys == SegmentPages(e[pid].Keys, ph)
    ensures ok ==> forall q :: IsRoot(old(m.role), q) ==> IsRoot(m.role, q)
    ensures ok ==> forall a: nat :: a < TWO47 ==>
              ByteAt(e', a) == if Covers(ph, a) then Some(SegmentByte(file, ph, a)) else ByteAt(e[pid], a)
    ensures ok && !Loadable(ph) ==> nodes' == nodes && mm.current == old(mm.current)
    ensures ok && Loadable(ph) ==>
              && |nodes'| == |nodes| + 1 && nodes' == nodes + [nodes'[|nodes|]]
              && fresh(nodes'[|nodes|]) && nodes'[|nodes|].Contents() == RegionOf(ph)
    ensures ok ==> MmList(mm, nodes') && mm.vmaCount == old(mm.vmaCount) + |nodes'| - |nodes|
    ensures Runs.Paid(old(m.role), m.role, SegmentCost(e[pid].Keys, ph), ok)
    ensures !ok ==> m.Exhausted()
  {
    hide FrameAllocator.IsFreeList, FrameAllocator.FreeSet, Walk, TreeOk, KernelOk, LeafOk, Refines, Tight, PathOf,
         ByteAt, Machine.Valid, Machine.Exhausted, Runs.Paid, WithPages, PagesCost, SegmentByte, MmList, IsChain;
    ok, nodes', e' := true, nodes, e[pid];
    Runs.NothingPaid(m);
    if ph.kind != PT_LOAD {
      assert e[pid := e'] == e;
      return;
    }
    var v := AddRegion(mm, ph, nodes);
    nodes' := nodes + [v];
    ok, e' := PlaceSegment(m, file, ph, spaces, e, pid);
  }

  /** How loadElf ends: the file is no ELF file; a null pointer is followed, because the
      record of the stack is linked behind one that is not there; or the task is ready. */
  datatype Outcome = Refused | Crashed | Ready(entry: nat, rsp: nat)

  predicate AnyLoadable(phs: seq<Phdr>) { exists k :: 0 <= k < |phs| && Loadable(phs[k]) }

  lemma {:induction false} NoRegions(phs: seq<Phdr>)
    ensures Regions(phs) == [] <==> !AnyLoadable(phs)
    decreases |phs|
  {
    if phs == [] {
    } else {
      var shorter := phs[..|phs| - 1];
      NoRegions(shorter);
      if AnyLoadable(shorter) {
        var k :| 0 <= k < |shorter| && Loadable(shorter[k]);
        assert Loadable(phs[k]);
      }
      if Loadable(phs[|phs| - 1]) {
        assert AnyLoadable(phs);
      } else if AnyLoadable(phs) {
        var k :| 0 <= k < |phs| && Loadable(phs[k]);
        assert Loadable(shorter[k]);
      }
    }
  }

  lemma ElfMark(ident: seq<char>)
    requires |ident| == 16
    ensures ident[1..4] == "ELF" <==> ident[1] == 'E' && ident[2] == 'L' && ident[3] == 'F'
  {
    assert ident[1..4] == [ident[1], ident[2], ident[3]];
    if ident[1..4] == "ELF" {
      assert ident[1..4][0] == 'E' && ident[1..4][1] == 'L' && ident[1..4][2] == 'F';
    }
  }

  /** What is loaded hides what was there. */
  function OnTop(x: Option<Byte>, y: Option<Byte>): Option<Byte> { if x.Some? then x else y }

  lemma ListFacts(mm: Mm, nodes: seq<Vma>, regions: seq<Region>)
    requires MmList(mm, nodes) && Say(nodes, regions)
    ensures |nodes| == |regions| && (nodes != [] ==> mm.current in nodes)
  { }

  lemma EmptyList(mm: Mm)
    requires mm.mmap == null
    ensures MmList(mm, []) && Say([], [])
  { }

  /** The records up to header `i` and the new one, if there is one. */
  lemma SayMore(before: seq<Vma>, nodes: seq<Vma>, phs: seq<Phdr>, i: nat)
    requires i < |phs| && Say(before, Regions(phs[..i]))
    requires !Loadable(phs[i]) ==> nodes == before
    requires Loadable(phs[i]) ==>
               && |nodes| == |before| + 1 && nodes == before + [nodes[|before|]]
               && nodes[|before|].Contents() == RegionOf(phs[i])
    ensures Say(nodes, Regions(phs[..i + 1]))
  {
    assert phs[..i + 1][..i] == phs[..i];
  }

  /** The loop of loadElf over the program headers. */
  method LoadSegments(m: Machine, mm: Mm, file: seq<Byte>, phs: seq<Phdr>,
                      ghost spaces: seq<nat>, ghost e: seq<Private>, ghost pid: nat)
    returns (ok: bool, ghost nodes: seq<Vma>, ghost e': Private)
    requires Running(m, spaces, e, pid) && forall k :: 0 <= k < |phs| ==> InFile(file, phs[k]) && InUserHalf(phs[k])
    requires mm.mmap == null
    modifies m`mem, m`role, m.pages`firstFree, m.pages.pageMap, mm`mmap, mm`current, mm`vmaCount
    ensures ok ==> Running(m, spaces, e[pid := e'], pid) && e'.Keys == SegmentsPages(e[pid].Keys, phs)
    ensures ok ==> forall q :: IsRoot(old(m.role), q) ==> IsRoot(m.role, q)
    ensures ok ==> forall a: nat :: a < TWO47 ==> ByteAt(e', a) == OnTop(Image(file, phs, a), ByteAt(e[pid], a))
    ensures ok ==> MmList(mm, nodes) && Say(nodes, Regions(phs)) && forall v :: v in nodes ==> fresh(v)
    ensures ok ==> mm.vmaCount == old(mm.vmaCount) + |nodes| && (nodes == [] ==> mm.current == old(mm.current))
    ensures Runs.Paid(old(m.role), m.role, SegmentsCost(e[pid].Keys, phs), ok)
    ensures !ok ==> m.Exhausted()
  {
    hide FrameAllocator.IsFreeList, FrameAllocator.FreeSet, Walk, TreeOk, KernelOk, LeafOk, Refines, Tight, PathOf,
         ByteAt, Machine.Valid, Machine.Exhausted, SegmentByte, Runs.Paid, SegmentCost, SegmentPages, MmList, IsChain,
         Say, Covers, RegionOf;
    EmptyList(mm);
    ok, nodes, e' := true, [], e[pid];
    ghost var pages, role0, spent: nat := e[pid].Keys, m.role, 0;
    Runs.NothingPaid(m);
    assert e[pid := e'] == e && phs[0..] == phs;
    var i := 0;
    while i < |phs|
      invariant 0 <= i <= |phs| && Running(m, spaces, e[pid := e'], pid)
      invariant forall q :: IsRoot(old(m.role), q) ==> IsRoot(m.role, q)
      invariant forall a: nat :: a < TWO47 ==> ByteAt(e', a) == OnTop(Image(file, phs[..i], a), ByteAt(e[pid], a))
      invariant MmList(mm, nodes) && Say(nodes, Regions(phs[..i])) && forall v :: v in nodes ==> fresh(v)
      invariant mm.vmaCount == old(mm.vmaCount) + |nodes| && (nodes == [] ==> mm.current == old(mm.current))
      invariant SegmentsPages(pages, phs) == SegmentsPages(e'.Keys, phs[i..])
      invariant SegmentsCost(pages, phs) == spent + SegmentsCost(e'.Keys, phs[i..])
      invariant Runs.Paid(role0, m.role, spent, true)
    {
      ghost var cur, role1, before := e', m.role, nodes;
      ghost var cost := SegmentCost(cur.Keys, phs[i]);
      assert phs[..i + 1][..i] == phs[..i] && phs[i..][1..] == phs[i + 1..];
      ok, nodes, e' := LoadSegment(m, mm, file, phs[i], nodes, spaces, e[pid := cur], pid);
      Runs.PaidBoth(role0, role1, m.role, spent, cost, ok);
      if !ok {
        Runs.PaidMore(role0, m.role, m.role, spent + cost, SegmentsCost(pages, phs));
        return;
      }
      spent := spent + cost;
      assert e[pid := cur][pid := e'] == e[pid := e'];
      SayMore(before, nodes, phs, i);
      i := i + 1;
    }
    assert phs[..i] == phs;
  }

  /** An empty page for the stack or the heap, behind a record taken for it. */
  method RecordAndPage(m: Machine, address: nat, ghost spaces: seq<nat>, ghost e: seq<Private>, ghost pid: nat)
    returns (ok: bool, ghost e': Private)
    requires Running(m, spaces, e, pid) && address < TWO47
    modifies m`mem, m`role, m.pages`firstFree, m.pages.pageMap
    ensures ok ==> Running(m, spaces, e[pid := e'], pid)
    ensures ok ==> e'.Keys == e[pid].Keys + iset{PagePath(PageOf(address))}
    ensures ok ==> forall q :: IsRoot(old(m.role), q) ==> IsRoot(m.role, q)
    ensures ok ==> forall a: nat :: a < TWO47 ==>
              ByteAt(e', a) == if PageOf(a) == PageOf(address) then Some(0) else ByteAt(e[pid], a)
    ensures Runs.Paid(old(m.role), m.role, AreaCost(e[pid].Keys, address), ok)
    ensures !ok ==> m.Exhausted()
  {
    hide FrameAllocator.IsFreeList, FrameAllocator.FreeSet, Walk, TreeOk, KernelOk, LeafOk, Refines, Tight, PathOf,
         ByteAt, Machine.Valid, Machine.Exhausted, Runs.Paid, SameUserTables, SameUserWalks, MissingFor, CanWrite;
    e' := e[pid];
    ghost var role0, cost := m.role, MissingFor(e[pid].Keys, PagePath(PageOf(address)));
    ok := Runs.KernelPages(m, 1, spaces, e);
    if !ok {
      Runs.PaidMore(role0, m.role, m.role, 1, 2 + cost);
      return;
    }
    ghost var role1 := m.role;
    ok, e' := MapEmpty(m, PageOf(address), spaces, e, pid);
    Runs.PaidBoth(role0, role1, m.role, 1, 1 + cost, ok);
  }

  lemma RunningPid(m: Machine, spaces: seq<nat>, e: seq<Private>, pid: nat)
    requires Running(m, spaces, e, pid)
    ensures pid < |e|
  { }

  /** A kernel page. */
  method OneRecord(m: Machine, ghost spaces: seq<nat>, ghost e: seq<Private>, ghost pid: nat) returns (ok: bool)
    requires Running(m, spaces, e, pid)
    modifies m`mem, m`role, m.pages`firstFree, m.pages.pageMap
    ensures ok ==> Running(m, spaces, e, pid) && forall q :: IsRoot(old(m.role), q) ==> IsRoot(m.role, q)
    ensures Runs.Paid(old(m.role), m.role, 1, ok)
    ensures !ok ==> m.Exhausted()
  {
    hide FrameAllocator.IsFreeList, FrameAllocator.FreeSet, Walk, TreeOk, KernelOk, LeafOk, Refines, Tight,
         Machine.Valid, Machine.Exhausted, Runs.Paid, SameUserTables, SameUserWalks;
    ok := Runs.KernelPages(m, 1, spaces, e);
  }

  /** The pages of stack and heap. */
  method LoadAreas(m: Machine, ghost spaces: seq<nat>, ghost e: seq<Private>, ghost pid: nat)
    returns (ok: bool, ghost e': Private)
    requires Running(m, spaces, e, pid)
    modifies m`mem, m`role, m.pages`firstFree, m.pages.pageMap
    ensures ok ==> Running(m, spaces, e[pid := e'], pid)
    ensures ok ==> forall q :: IsRoot(old(m.role), q) ==> IsRoot(m.role, q)
    ensures ok ==> forall a: nat :: a < TWO47 ==>
              ByteAt(e', a) ==
              if PageOf(a) == PageOf(USER_STACK_TOP) || PageOf(a) == PageOf(HEAP_START) then Some(0)
              else ByteAt(e[pid], a)
    ensures Runs.Paid(old(m.role), m.role, AreasCost(e[pid].Keys), ok)
    ensures !ok ==> m.Exhausted()
  {
    hide FrameAllocator.IsFreeList, FrameAllocator.FreeSet, Walk, TreeOk, KernelOk, LeafOk, Refines, Tight, PathOf,
         ByteAt, Machine.Valid, Machine.Exhausted, Runs.Paid, AreaCost;
    ghost var role0, pages := m.role, e[pid].Keys;
    ok, e' := RecordAndPage(m, USER_STACK_TOP, spaces, e, pid);
    if !ok {
      Runs.PaidMore(role0, m.role, m.role, AreaCost(pages, USER_STACK_TOP), AreasCost(pages));
      return;
    }
    ghost var e1, role1 := e[pid := e'], m.role;
    ok, e' := RecordAndPage(m, HEAP_START, spaces, e1, pid);
    Runs.PaidBoth(role0, role1, m.role, AreaCost(pages, USER_STACK_TOP), AreaCost(e1[pid].Keys, HEAP_START), ok);
    assert e1[pid := e'] == e[pid := e'];
  }

  /** The records of stack and heap. */
  method AddAreas(mm: Mm, ghost nodes: seq<Vma>, ghost regions: seq<Region>)
    returns (crashed: bool, ghost nodes': seq<Vma>)
    requires MmList(mm, nodes) && Say(nodes, regions)
    modifies mm`mmap, mm`current, mm`vmaCount, (set u | u in nodes)`next
    modifies (if mm.current == null then {} else {mm.current})`next
    ensures crashed <==> nodes == [] && old(mm.current) == null
    ensures !crashed ==> MmList(mm, nodes') && Say(nodes', regions + [STACK_REGION, HEAP_REGION])
    ensures !crashed ==> |nodes'| == |nodes| + 2 && mm.vmaCount == old(mm.vmaCount) + 2
    ensures !crashed ==> forall v :: v in nodes' ==> v in nodes || fresh(v)
  {
    hide MmList, IsChain, Say;
    nodes' := nodes;
    var stack := new Vma(Region(USER_STACK_TOP + TWO12, USER_STACK_TOP, 5, STACK, None), null);
    crashed := AppendStack(mm, stack, nodes);
    if crashed { return; }
    mm.vmaCount := mm.vmaCount + 1;
    var heap := new Vma(Region(HEAP_START, HEAP_START + TWO12, 5, HEAP, None), null);
    Append(mm, heap, nodes + [stack]);
    nodes' := nodes + [stack] + [heap];
    SayAreas(nodes, regions, stack, heap);
  }

  lemma SayAreas(nodes: seq<Vma>, regions: seq<Region>, stack: Vma, heap: Vma)
    requires Say(nodes, regions) && stack.Contents() == STACK_REGION && heap.Contents() == HEAP_REGION
    ensures Say(nodes + [stack] + [heap], regions + [STACK_REGION, HEAP_REGION])
  { }

  /** The part of loadElf behind its test: segments, then stack and heap. */
  method LoadProgram(m: Machine, mm: Mm, file: seq<Byte>, phs: seq<Phdr>,
                     ghost spaces: seq<nat>, ghost e: seq<Private>, ghost pid: nat)
    returns (ok: bool, crashed: bool, ghost nodes: seq<Vma>, ghost e': Private)
    requires Running(m, spaces, e, pid)
    requires forall k :: 0 <= k < |phs| ==> InFile(file, phs[k]) && InUserHalf(phs[k])
    modifies m`mem, m`role, m.pages`firstFree, m.pages.pageMap, mm
    modifies (if mm.current == null then {} else {mm.current})`next
    ensures !ok ==> m.Exhausted()
    ensures ok ==> Running(m, spaces, e[pid := e'], pid)
    ensures ok ==> forall q :: IsRoot(old(m.role), q) ==> IsRoot(m.role, q)
    ensures ok ==> (crashed <==> !AnyLoadable(phs) && old(mm.current) == null)
    ensures ok && !crashed ==>
              forall a: nat :: a < TWO47 ==> ByteAt(e', a) == OnTop(Program(file, phs, a), ByteAt(e[pid], a))
    ensures ok && !crashed ==> MmList(mm, nodes) && Say(nodes, Regions(phs) + [STACK_REGION, HEAP_REGION])
    ensures ok && !crashed ==> mm.vmaCount == old(mm.vmaCount) + |nodes| && forall v :: v in nodes ==> fresh(v)
    ensures ok && !crashed ==> mm.brk == HEAP_START
    ensures AnyLoadable(phs) || old(mm.current) != null ==>
              Runs.Paid(old(m.role), m.role, LoadCost(e[pid].Keys, phs), ok)
  {
    hide FrameAllocator.IsFreeList, FrameAllocator.FreeSet, Walk, TreeOk, KernelOk, LeafOk, Refines, Tight, PathOf,
         ByteAt, Machine.Valid, Machine.Exhausted, Image, Regions, AnyLoadable, InFile, InUserHalf, Runs.Paid,
         FreeFrames, MmList, Say, IsChain, Running, Neat, Sound, SegmentsCost, SegmentsPages, AreasCost;
    RunningPid(m, spaces, e, pid);
    crashed := false;
    ghost var role0, pages := m.role, e[pid].Keys;
    ghost var c1, c2 := SegmentsCost(pages, phs), AreasCost(SegmentsPages(pages, phs));
    mm.mmap := null;
    ok, nodes, e' := LoadSegments(m, mm, file, phs, spaces, e, pid);
    NoRegions(phs);
    if !ok {
      Runs.PaidMore(role0, m.role, m.role, c1, c1 + c2);
      return;
    }
    ghost var e1, role1 := e[pid := e'], m.role;
    ListFacts(mm, nodes, Regions(phs));
    assert mm.current == null || mm.current == old(mm.current) || fresh(mm.current);
    crashed, nodes := AddAreas(mm, nodes, Regions(phs));
    if crashed {
      ok := OneRecord(m, spaces, e1, pid);
      return;
    }
    ok, e' := LoadAreas(m, spaces, e1, pid);
    Runs.PaidBoth(role0, role1, m.role, c1, c2, ok);
    mm.brk := HEAP_START;
    assert e1[pid := e'] == e[pid := e'];
  }

  /** loadElf, with the space of process `pid` in CR3.  Every byte below 2^47 that the
      process sees is that of the program, or the one that was there where the program has
      none; no other process sees a change.  The records of the regions are linked from
      `mmap` on, and as many as there are are added to the count. */
  method LoadElf(m: Machine, mm: Mm, file: seq<Byte>, ident: seq<char>, entry: nat, phs: seq<Phdr>,
                 ghost spaces: seq<nat>, ghost e: seq<Private>, ghost pid: nat)
    returns (ok: bool, outcome: Outcome, ghost nodes: seq<Vma>, ghost e': Private)
    requires Running(m, spaces, e, pid) && |ident| == 16
    requires forall k :: 0 <= k < |phs| ==> InFile(file, phs[k]) && InUserHalf(phs[k])
    modifies m`mem, m`role, m.pages`firstFree, m.pages.pageMap, mm
    modifies (if mm.current == null then {} else {mm.current})`next
    ensures !ok ==> m.Exhausted()
    ensures ok ==> Running(m, spaces, e[pid := e'], pid)
    ensures ok ==> forall q :: IsRoot(old(m.role), q) ==> IsRoot(m.role, q)
    ensures ok ==> (outcome.Refused? <==> ident[1..4] != "ELF")
    ensures ok ==> (outcome.Crashed? <==> ident[1..4] == "ELF" && !AnyLoadable(phs) && old(mm.current) == null)
    ensures ok && outcome.Refused? ==> e' == e[pid] && m.mem == old(m.mem) && m.role == old(m.role)
    ensures ok && outcome.Ready? ==>
              forall a: nat :: a < TWO47 ==> ByteAt(e', a) == OnTop(Program(file, phs, a), ByteAt(e[pid], a))
    ensures ok && outcome.Ready? ==> MmList(mm, nodes) && Say(nodes, Regions(phs) + [STACK_REGION, HEAP_REGION])
    ensures ok && outcome.Ready? ==> mm.vmaCount == old(mm.vmaCount) + |nodes| && forall v :: v in nodes ==> fresh(v)
    ensures ok && outcome.Ready? ==> mm.brk == HEAP_START && outcome == Ready(entry, USER_STACK_TOP + 4096 - 16)
    ensures ident[1..4] == "ELF" && (AnyLoadable(phs) || old(mm.current) != null) ==>
              Runs.Paid(old(m.role), m.role, LoadCost(e[pid].Keys, phs), ok)
  {
    hide FrameAllocator.IsFreeList, FrameAllocator.FreeSet, Walk, TreeOk, KernelOk, LeafOk, Refines, Tight, PathOf,
         ByteAt, Machine.Valid, Machine.Exhausted, Image, Regions, AnyLoadable, InFile, InUserHalf, Runs.Paid,
         FreeFrames, MmList, Say, IsChain, Running, Neat, Sound, Program, LoadCost;
    RunningPid(m, spaces, e, pid);
    ElfMark(ident);
    outcome, nodes, e' := Refused, [], e[pid];
    if !(ident[1] == 'E' && ident[2] == 'L' && ident[3] == 'F') {
      assert e[pid := e'] == e;
      return true, Refused, [], e';
    }
    var crashed;
    ok, crashed, nodes, e' := LoadProgram(m, mm, file, phs, spaces, e, pid);
    outcome := if crashed then Crashed else Ready(entry, USER_STACK_TOP + 4096 - 16);
  }

  /** userInitProcess, as far as memory goes: a process record, a new space, and in it the
      records of memory and stack, then the program. */
  method UserInitProcess(m: Machine, file: seq<Byte>, ident: seq<char>, entry: nat, phs: seq<Phdr>,
                         spaces: seq<nat>, ghost e: seq<Private>)
    returns (ok: bool, outcome: Outcome, spaces': seq<nat>, mm: Mm, ghost nodes: seq<Vma>, ghost image: Private)
    requires Neat(m) && Refines(m.mem, m.role, spaces, e) && |ident| == 16
    requires forall k :: 0 <= k < |phs| ==> InFile(file, phs[k]) && InUserHalf(phs[k])
    modifies m`mem, m`role, m`cr3, m.pages`firstFree, m.pages.pageMap
    ensures !ok ==> m.Exhausted()
    ensures ok ==> Neat(m) && m.cr3 == old(m.cr3) && Refines(m.mem, m.role, spaces', e + [image])
    ensures ok ==> (outcome.Ready? <==> ident[1..4] == "ELF" && AnyLoadable(phs))
    ensures ok && outcome.Ready? ==> forall a: nat :: a < TWO47 ==> ByteAt(image, a) == Program(file, phs, a)
    ensures ok && outcome.Ready? ==> MmList(mm, nodes) && Say(nodes, Regions(phs) + [STACK_REGION, HEAP_REGION])
    ensures ok && outcome.Ready? ==> mm.vmaCount == |nodes|
    ensures ident[1..4] == "ELF" && AnyLoadable(phs) ==>
              Runs.Paid(old(m.role), m.role, 4 + LoadCost(iset{}, phs), ok)
  {
    hide FrameAllocator.IsFreeList, FrameAllocator.FreeSet, Walk, TreeOk, KernelOk, LeafOk, Refines, Tight, PathOf,
         ByteAt, Image, Machine.Valid, Machine.Exhausted, InFile, InUserHalf, Runs.Paid, Program, FreeFrames, LoadCost,
         AnyLoadable, Regions, MmList, Say, IsChain;
    outcome, spaces', image, nodes := Refused, spaces, imap[], [];
    mm := new Mm();
    Runs.RootsOf(m.mem, m.role, spaces, e);
    var previous, c := m.cr3, 0;
    ghost var role0 := m.role;
    ok, c := NewSpace(m, spaces, e);
    if !ok {
      Runs.PaidMore(role0, m.role, m.role, 4, 4 + LoadCost(iset{}, phs));
      return;
    }
    ghost var role1 := m.role;
    spaces' := spaces + [c];
    ghost var e1 := e + [image];
    assert e1[|e|].Keys == iset{};
    ok, outcome, nodes, image := LoadElf(m, mm, file, ident, entry, phs, spaces', e1, |e|);
    if ident[1..4] == "ELF" && AnyLoadable(phs) {
      Runs.PaidBoth(role0, role1, m.role, 4, LoadCost(iset{}, phs), ok);
    }
    m.cr3 := previous;
    assert e1[|e| := image] == e + [image];
    forall a: nat ensures ByteAt(e1[|e|], a) == None { NoBytes(a); }
  }

  /** A process record, a new space, which is entered, and in it the records of memory and
      stack. */
  method NewSpace(m: Machine, ghost spaces: seq<nat>, ghost e: seq<Private>) returns (ok: bool, c: nat)
    requires Neat(m) && Refines(m.mem, m.role, spaces, e)
    modifies m`mem, m`role, m`cr3, m.pages`firstFree, m.pages.pageMap
    ensures ok ==> Running(m, spaces + [c], e + [imap[]], |e|)
    ensures ok ==> forall q :: IsRoot(old(m.role), q) ==> IsRoot(m.role, q)
    ensures Runs.Paid(old(m.role), m.role, 4, ok)
    ensures !ok ==> m.Exhausted()
  {
    hide FrameAllocator.IsFreeList, FrameAllocator.FreeSet, Walk, TreeOk, KernelOk, LeafOk, Refines, Tight,
         Machine.Valid, Machine.Exhausted, Runs.Paid, SameUserTables, SameUserWalks, SameWritable, NoneWritable;
    c := 0;
    ghost var role0 := m.role;
    Runs.RootsOf(m.mem, m.role, spaces, e);
    ok := Runs.KernelPages(m, 1, spaces, e);
    if !ok {
      Runs.PaidMore(role0, m.role, m.role, 1, 4);
      return;
    }
    ghost var role1 := m.role;
    ok, c := Runs.SpawnSpace(m, spaces, e);
    Runs.PaidBoth(role0, role1, m.role, 1, 1, ok);
    if !ok {
      Runs.PaidMore(role0, m.role, m.role, 2, 4);
      return;
    }
    ghost var role2 := m.role;
    Runs.RootsOf(m.mem, m.role, spaces + [c], e + [imap[]]);
    m.cr3 := c;
    assert (spaces + [c])[|e|] == c;
    ok := Runs.KernelPages(m, 2, spaces + [c], e + [imap[]]);
    Runs.PaidBoth(role0, role2, m.role, 2, 2, ok);
  }

  lemma NoBytes(a: nat)
    ensures ByteAt(imap[], a) == None
  { }
}
