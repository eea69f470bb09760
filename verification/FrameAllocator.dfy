/** The physical frame allocator (sys/page.c): an ascending free list threaded
    through one array, `pageMap`.  The link of a free page is the next free page,
    the link of a page in use is 0, and the link of the last page is the end mark.
 */
module FrameAllocator {

  const PAGE_SIZE: nat := 4096

  /** The unsigned reading of -1, which the code stores behind the last page. */
  const END_MARK: nat := 0xFFFF_FFFF_FFFF_FFFF

  // ---------------------------------------------------------------- the list

  ghost predicate IsFree(links: seq<nat>, x: nat) {
    x < |links| && links[x] != 0
  }

  /** The set of pages the array calls free. */
  ghost function FreeSet(links: seq<nat>): set<nat> {
    set x: nat | x < |links| && IsFree(links, x)
  }

  /** The link of `x` skips no free page, and leads to a free page. */
  ghost predicate LinkOk(links: seq<nat>, x: nat)
    requires x < |links|
  {
    if x == |links| - 1 then links[x] == END_MARK
    else
      && x < links[x] < |links|
      && IsFree(links, links[x])
      && (forall y :: x < y < links[x] ==> !IsFree(links, y))
  }

  ghost predicate IsFreeList(links: seq<nat>, first: nat) {
    && 0 < |links| <= END_MARK
    && IsFree(links, first)
    && IsFree(links, |links| - 1)
    && (forall x :: 0 <= x < first ==> !IsFree(links, x))
    && (forall x {:trigger LinkOk(links, x)} ::
          0 <= x < |links| && IsFree(links, x) ==> LinkOk(links, x))
  }

  /** The pages met when the links are followed from `x`. */
  ghost function Chain(links: seq<nat>, x: nat): seq<nat>
    decreases |links| - x
  {
    if x >= |links| then [] else
    if x < links[x] then [x] + Chain(links, links[x]) else [x]
  }

  ghost predicate Ascending(s: seq<nat>) {
    forall i, j :: 0 <= i < j < |s| ==> s[i] < s[j]
  }

  /** Following the links from a free page visits, in strictly ascending order,
      exactly the free pages from there on. */
  lemma {:induction false} ChainIsSorted(links: seq<nat>, first: nat, x: nat)
    requires IsFreeList(links, first) && IsFree(links, x)
    ensures Ascending(Chain(links, x))
    ensures forall y :: y in Chain(links, x) <==> x <= y && IsFree(links, y)
    decreases |links| - x
  {
    assert LinkOk(links, x);
    if x < |links| - 1 {
      var rest := Chain(links, links[x]);
      ChainIsSorted(links, first, links[x]);
      assert Chain(links, x) == [x] + rest;
      PrependAscending(x, rest);
    } else {
      assert Chain(links, links[x]) == [];
      assert Chain(links, x) == [x];
    }
  }

  lemma PrependAscending(x: nat, rest: seq<nat>)
    requires Ascending(rest) && forall y :: y in rest ==> x < y
    ensures Ascending([x] + rest)
  {
    var s := [x] + rest;
    forall i, j | 0 <= i < j < |s| ensures s[i] < s[j] {
      assert s[j] == rest[j - 1] && rest[j - 1] in rest;
    }
  }

  /** The list, read by its links, is the free set in strictly ascending order. */
  lemma {:induction false} ListIsFreeSet(links: seq<nat>, first: nat)
    requires IsFreeList(links, first)
    ensures Ascending(Chain(links, first))
    ensures (set y | y in Chain(links, first)) == FreeSet(links)
  {
    ChainIsSorted(links, first, first);
  }

  /** A link survives a change of the array that leaves it, its target and the
      used pages it skips as they were. */
  lemma LinkKept(links: seq<nat>, after: seq<nat>, x: nat)
    requires x < |links| && LinkOk(links, x)
    requires |after| == |links| && after[x] == links[x]
    requires x != |links| - 1 ==> IsFree(after, links[x])
    requires x != |links| - 1 ==> forall y :: x < y < links[x] ==> after[y] == links[y]
    ensures LinkOk(after, x)
  {
    if x != |links| - 1 {
      forall y | x < y < after[x] ensures !IsFree(after, y) {
        assert !IsFree(links, y);
      }
    }
  }

  /** Taking the first page off the list. */
  lemma RemoveFirst(links: seq<nat>, first: nat)
    requires IsFreeList(links, first) && first != |links| - 1
    ensures IsFreeList(links[first := 0], links[first])
    ensures FreeSet(links[first := 0]) == FreeSet(links) - {first}
  {
    var after := links[first := 0];
    assert LinkOk(links, first);
    forall x | 0 <= x < |after| && IsFree(after, x) ensures LinkOk(after, x) {
      assert IsFree(links, x) && LinkOk(links, x);
      LinkKept(links, after, x);
    }
    forall x | 0 <= x < links[first] ensures !IsFree(after, x) {
      assert x != first ==> !IsFree(links, x);
    }
  }

  /** Putting a used page in front of the list. */
  lemma InsertFront(links: seq<nat>, first: nat, index: nat)
    requires IsFreeList(links, first) && index < first
    ensures IsFreeList(links[index := first], index)
    ensures FreeSet(links[index := first]) == FreeSet(links) + {index}
  {
    var after := links[index := first];
    forall x | 0 <= x < |after| && IsFree(after, x) ensures LinkOk(after, x) {
      if x == index {
        forall y | x < y < first ensures !IsFree(after, y) { assert !IsFree(links, y); }
      } else {
        assert IsFree(links, x) && LinkOk(links, x);
        LinkKept(links, after, x);
      }
    }
    forall x | 0 <= x < index ensures !IsFree(after, x) { assert !IsFree(links, x); }
  }

  /** Putting a used page behind its list predecessor `a`. */
  lemma InsertBehind(links: seq<nat>, first: nat, a: nat, index: nat)
    requires IsFreeList(links, first)
    requires IsFree(links, a) && a < index < |links| && !IsFree(links, index)
    requires index <= links[a]
    ensures IsFreeList(links[a := index][index := links[a]], first)
    ensures FreeSet(links[a := index][index := links[a]]) == FreeSet(links) + {index}
  {
    var after := links[a := index][index := links[a]];
    assert LinkOk(links, a);
    forall x | 0 <= x < |after| && IsFree(after, x) ensures LinkOk(after, x) {
      InsertedLink(links, first, a, index, x, after);
    }
    forall x | 0 <= x < first ensures !IsFree(after, x) { assert !IsFree(links, x); }
  }

  lemma InsertedLink(links: seq<nat>, first: nat, a: nat, index: nat, x: nat, after: seq<nat>)
    requires IsFreeList(links, first)
    requires IsFree(links, a) && a < index < |links| && !IsFree(links, index) && index <= links[a]
    requires after == links[a := index][index := links[a]] && x < |after| && IsFree(after, x)
    ensures LinkOk(after, x)
  {
    assert LinkOk(links, a);
    if x == a {
      forall y | x < y < index ensures !IsFree(after, y) { assert !IsFree(links, y); }
    } else if x == index {
      forall y | x < y < links[a] ensures !IsFree(after, y) { assert !IsFree(links, y); }
    } else {
      assert IsFree(links, x) && LinkOk(links, x);
      LinkKept(links, after, x);
    }
  }

  /** Giving back a page that is free, and is not the first, destroys the list. */
  lemma InsertFreePageBreaks(links: seq<nat>, first: nat, a: nat, index: nat)
    requires IsFreeList(links, first)
    requires IsFree(links, a) && links[a] == index && a < index < |links|
    ensures !IsFreeList(links[a := index][index := links[a]], first)
  {
    var after := links[a := index][index := links[a]];
    assert after[index] == index;
    assert IsFree(after, index);
    assert !LinkOk(after, index);
  }

  lemma PagesStep(lo: nat, hi: nat)
    requires lo < hi
    ensures lo in Pages(lo, hi) && hi in Pages(lo, hi)
    ensures Pages(lo + 1, hi) == Pages(lo, hi) - {lo}
  { }

  lemma PagesMore(lo: nat, i: nat, n: nat, hi: nat)
    requires lo <= i < n
    ensures i !in Pages(lo, i - 1) + Pages(n, hi)
    ensures Pages(lo, i) == Pages(lo, i - 1) + {i}
  { }

  /** What setPage leaves behind when it links `index` in behind `a`. */
  lemma InsertAt(links: seq<nat>, first: nat, a: nat, index: nat)
    requires IsFreeList(links, first)
    requires IsFree(links, a) && a < index < |links| && index <= links[a]
    ensures IsFreeList(links[a := index][index := links[a]], first) <==> !IsFree(links, index)
    ensures !IsFree(links, index) ==>
              FreeSet(links[a := index][index := links[a]]) == FreeSet(links) + {index}
  {
    assert LinkOk(links, a);
    if IsFree(links, index) {
      InsertFreePageBreaks(links, first, a, index);
    } else {
      InsertBehind(links, first, a, index);
    }
  }

  ghost predicate Within(lo: int, x: int, hi: int) {
    lo <= x <= hi
  }

  /** The pages from `lo` to `hi`, both included. */
  ghost function Pages(lo: nat, hi: int): set<nat> {
    set x: nat | x <= hi && Within(lo, x, hi)
  }

  lemma {:induction false} PageRun(lo: nat, hi: int)
    ensures |Pages(lo, hi)| == if lo <= hi then hi - lo + 1 else 0
    decreases hi - lo
  {
    if hi < lo {
      assert Pages(lo, hi) == {};
    } else {
      PageRun(lo, hi - 1);
      assert Pages(lo, hi) == Pages(lo, hi - 1) + {hi};
    }
  }

  /** The pages of the two runs that start-up leaves free. */
  lemma FreeRuns(physbase: nat, physfree: nat, base: nat, maxLength: nat, end: nat, x: nat)
    requires end == ((physfree + 8 * (maxLength / 4096)) / 4096 + 1) * 4096
    ensures x in Pages(base / 4096, physbase / 4096 - 1) + Pages(end / 4096, maxLength / 4096) <==>
            || base / 4096 <= x < physbase / 4096
            || (physfree + 8 * (maxLength / 4096)) / 4096 < x <= maxLength / 4096
  {
    assert end / 4096 == (physfree + 8 * (maxLength / 4096)) / 4096 + 1;
  }

  /** Two runs of pages, the second behind the first. */
  lemma PagesCount(lo: nat, hi: int, lo': nat, hi': int)
    requires hi < lo'
    ensures |Pages(lo, hi) + Pages(lo', hi')| ==
            (if lo <= hi then hi - lo + 1 else 0) + (if lo' <= hi' then hi' - lo' + 1 else 0)
  {
    PageRun(lo, hi);
    PageRun(lo', hi');
    assert Pages(lo, hi) * Pages(lo', hi') == {};
  }

  // --------------------------------------------------------------- the class

  class PageList {
    var pageMap: array<nat>
    var firstFree: nat

    ghost predicate Valid()
      reads this, pageMap
    {
      IsFreeList(pageMap[..], firstFree)
    }

    ghost function Free(): set<nat>
      reads this, pageMap
    {
      FreeSet(pageMap[..])
    }

    function LastPage(): int
      reads this
    {
      pageMap.Length - 1
    }

    constructor ()
      ensures fresh(pageMap)
    {
      pageMap := new nat[0];
      firstFree := 0;
    }

    /** init_page: every page free, each linked to its successor. */
    method InitPage(size: nat)
      requires size < END_MARK
      modifies this, pageMap
      ensures fresh(pageMap) && pageMap.Length == size + 1 && firstFree == old(firstFree)
      ensures IsFreeList(pageMap[..], 0)
      ensures Free() == Pages(0, size)
    {
      pageMap := new nat[size + 1];
      var start := 0;
      while start != size
        invariant 0 <= start <= size
        invariant fresh(pageMap) && pageMap.Length == size + 1 && firstFree == old(firstFree)
        invariant forall x :: 0 <= x < start ==> pageMap[x] == x + 1
      {
        pageMap[start] := start + 1;
        start := start + 1;
      }
      pageMap[size] := END_MARK;
      ghost var links := pageMap[..];
      assert forall x :: 0 <= x <= size ==> IsFree(links, x);
    }

    /** unsetPage: takes the least free page, but never the last page of memory. */
    method UnsetPage() returns (l: nat)
      requires Valid()
      modifies this`firstFree, pageMap
      ensures Valid()
      ensures (l == END_MARK) == (old(Free()) == {old(LastPage())})
      ensures l == END_MARK ==> Free() == old(Free()) && firstFree == old(firstFree)
      ensures l != END_MARK ==>
                && l in old(Free()) && l != old(LastPage())
                && (forall x :: x in old(Free()) ==> l <= x)
                && Free() == old(Free()) - {l}
    {
      ghost var links := pageMap[..];
      assert LinkOk(links, firstFree);
      if pageMap[firstFree] == END_MARK {
        assert firstFree == |links| - 1;
        assert Free() == {firstFree};
        return END_MARK;
      }
      assert |links| - 1 in Free() && firstFree in Free();
      RemoveFirst(links, firstFree);
      l := firstFree;
      firstFree := pageMap[l];
      pageMap[l] := 0;
      assert pageMap[..] == links[l := 0];
    }

    /** setPage: gives a page back.  The scan steps through the array, not through
        the list; it stops inside the array at the list predecessor.  The list
        survives exactly when the page was in use or was the first free page. */
    method SetPage(index: nat)
      requires Valid() && index < pageMap.Length
      modifies this`firstFree, pageMap
      ensures Valid() <==> index !in old(Free()) || index == old(firstFree)
      ensures Valid() ==> Free() == old(Free()) + {index}
      ensures Valid() ==> firstFree == if index < old(firstFree) then index else old(firstFree)
    {
      ghost var links := pageMap[..];
      assert index in Free() <==> IsFree(links, index);
      if index < firstFree {
        InsertFront(links, firstFree, index);
        pageMap[index] := firstFree;
        assert pageMap[..] == links[index := firstFree];
        firstFree := index;
      } else if index > firstFree {
        var a := ScanTo(index);
        var b := pageMap[a];
        pageMap[a] := index;
        pageMap[index] := b;
        assert pageMap[..] == links[a := index][index := links[a]];
        InsertAt(links, firstFree, a, index);
      }
    }

    /** The scan of setPage. */
    method ScanTo(index: nat) returns (a: nat)
      requires Valid() && firstFree < index < pageMap.Length
      ensures a < index && pageMap[a] >= index && IsFree(pageMap[..], a)
    {
      ghost var links := pageMap[..];
      a := firstFree;
      ghost var p := firstFree;  // the last free page met, linked to `a` or beyond
      while pageMap[a] < index
        invariant 0 <= p <= a < index && (p == a || a < links[p] < index)
        invariant IsFree(links, p)
        invariant IsFree(links, a) ==> a == p
        decreases index - a
      {
        assert LinkOk(links, p);
        a := a + 1;
        if IsFree(links, a) { p := a; }
      }
    }

    /** allocatePage: the byte address of the least free page, or 0 when only the last
        page is left.  Page 0, while it is free, is handed out under the same number. */
    method AllocatePage() returns (address: nat)
      requires Valid()
      modifies this`firstFree, pageMap
      ensures Valid() && address % PAGE_SIZE == 0
      ensures address == 0 <==> old(Free()) == {old(LastPage())} || 0 in old(Free())
      ensures old(Free()) == {old(LastPage())} ==> Free() == old(Free())
      ensures old(Free()) != {old(LastPage())} ==>
                && address / PAGE_SIZE in old(Free())
                && (forall x :: x in old(Free()) ==> address / PAGE_SIZE <= x)
                && Free() == old(Free()) - {address / PAGE_SIZE}
    {
      var a := UnsetPage();
      if a == END_MARK {
        return 0;
      }
      address := a * PAGE_SIZE;
      assert address / PAGE_SIZE == a;
    }

    /** init_pageTable: builds the list over all of memory behind the kernel image,
        withdraws everything below its own end, and returns the pages between
        `base` and the kernel image. */
    method InitPageTable(physbase: nat, physfree: nat, base: nat, maxLength: nat) returns (end: nat)
      requires physbase <= physfree
      requires maxLength / PAGE_SIZE < END_MARK
      requires (physfree + 8 * (maxLength / PAGE_SIZE)) / PAGE_SIZE + 1 <= maxLength / PAGE_SIZE
      modifies this, pageMap
      ensures Valid() && fresh(pageMap) && LastPage() == maxLength / PAGE_SIZE
      ensures end == ((physfree + 8 * LastPage()) / PAGE_SIZE + 1) * PAGE_SIZE
      ensures Free() == Pages(base / PAGE_SIZE, physbase / PAGE_SIZE - 1)
                        + Pages(end / PAGE_SIZE, LastPage())
      ensures forall x: nat :: x in Free() <==>
                || base / 4096 <= x < physbase / 4096
                || (physfree + 8 * (maxLength / 4096)) / 4096 < x <= maxLength / 4096
      ensures physfree % 8 == 0 ==> forall x, addr: nat :: x in Free() && InPage(x, addr) ==>
                !(physbase <= addr < physfree + 8 * (LastPage() + 1))
    {
      var last := maxLength / PAGE_SIZE;
      InitPage(last);
      end := physfree + 8 * last;
      end := ((end / PAGE_SIZE) + 1) * PAGE_SIZE;
      firstFree := 0;
      Withdraw(end / PAGE_SIZE);
      assert physbase / PAGE_SIZE <= end / PAGE_SIZE;
      Restore(base / PAGE_SIZE, physbase / PAGE_SIZE, end / PAGE_SIZE);
      forall x: nat
        ensures x in Free() <==>
                || base / 4096 <= x < physbase / 4096
                || (physfree + 8 * (maxLength / 4096)) / 4096 < x <= maxLength / 4096
      {
        FreeRuns(physbase, physfree, base, maxLength, end, x);
      }
      if physfree % 8 == 0 {
        forall x, addr: nat | x in Free() && InPage(x, addr) ensures !(physbase <= addr < physfree + 8 * (last + 1)) {
          FreePagesAvoidKernel(physbase, physfree, base, last, end, x, addr);
        }
      }
    }

    /** The first loop of init_pageTable. */
    method Withdraw(n: nat)
      requires Valid() && n <= LastPage() && Free() == Pages(0, LastPage())
      modifies this`firstFree, pageMap
      ensures Valid() && Free() == Pages(n, LastPage())
    {
      var i := 0;
      while i < n
        invariant i <= n && Valid() && Free() == Pages(i, LastPage())
      {
        hide *;
        PagesStep(i, LastPage());
        assert i in Free() && LastPage() in Free();
        var l := UnsetPage();
        assert l == i;
        i := i + 1;
      }
    }

    /** The second loop of init_pageTable. */
    method Restore(lo: nat, hi: nat, ghost n: nat)
      requires Valid() && hi <= n <= LastPage() && Free() == Pages(n, LastPage())
      modifies this`firstFree, pageMap
      ensures Valid() && Free() == Pages(lo, hi - 1) + Pages(n, LastPage())
    {
      var i := lo;
      while i < hi
        invariant lo <= i && (i <= hi || i == lo)
        invariant Valid() && Free() == Pages(lo, i - 1) + Pages(n, LastPage())
      {
        hide *;
        PagesMore(lo, i, n, LastPage());
        SetPage(i);
        i := i + 1;
      }
    }
  }

  predicate InPage(x: nat, addr: nat) { x * PAGE_SIZE <= addr < (x + 1) * PAGE_SIZE }

  /** After boot no free page meets the kernel image or the array itself, whose
      end mark occupies the eight bytes from physfree + 8 * lastPage on. */
  lemma FreePagesAvoidKernel(physbase: nat, physfree: nat, base: nat, last: nat, end: nat, x: nat, addr: nat)
    requires physbase <= physfree && physfree % 8 == 0 && end % PAGE_SIZE == 0
    requires physfree + 8 * last < end
    requires base / PAGE_SIZE <= x < physbase / PAGE_SIZE || end / PAGE_SIZE <= x
    requires InPage(x, addr)
    ensures !(physbase <= addr < physfree + 8 * (last + 1))
  { }

  /** A memory region that begins in page 0 makes the first allocation look like a
      failure: the address is 0, yet page 0 has been taken and others are left. */
  method PageZeroRun(physbase: nat, physfree: nat, base: nat, maxLength: nat) returns (pages: PageList, address: nat)
    requires base < PAGE_SIZE <= physbase <= physfree
    requires maxLength / PAGE_SIZE < END_MARK
    requires (physfree + 8 * (maxLength / PAGE_SIZE)) / PAGE_SIZE + 1 <= maxLength / PAGE_SIZE
    ensures fresh(pages) && pages.Valid() && address == 0
    ensures 0 !in pages.Free() && pages.LastPage() in pages.Free()
    ensures Pages(1, physbase / PAGE_SIZE - 1) <= pages.Free()
  {
    pages := new PageList();
    var end := pages.InitPageTable(physbase, physfree, base, maxLength);
    hide IsFreeList, FreeSet;
    assert 0 in Pages(base / PAGE_SIZE, physbase / PAGE_SIZE - 1);
    assert pages.LastPage() in Pages(end / PAGE_SIZE, pages.LastPage());
    address := pages.AllocatePage();
  }
}
