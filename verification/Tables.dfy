/** Which page tables a space has: exactly those on the ways to its pages.  A table is made
    only to map a page under it (sys/mmu.c), and no page is ever unmapped, so the number of
    frames that mapping a page or forking takes follows from the mapped pages alone. */
module Tables {
  import opened Paging
  import opened Fork

  type PageSet = iset<Path>

  /** The user pages of the space of `r`. */
  ghost function PagesOf(mem: Memory, r: nat): PageSet {
    iset p | UserPath(p) && Present(Walk(mem, r, p))
  }

  /** Some page lies below the entries with these indices. */
  ghost predicate Below4(pages: PageSet, a: nat) { exists p :: p in pages && p.i4 == a }

  ghost predicate Below3(pages: PageSet, a: nat, b: nat) { exists p :: p in pages && p.i4 == a && p.i3 == b }

  ghost predicate Below2(pages: PageSet, a: nat, b: nat, c: nat) {
    exists p :: p in pages && p.i4 == a && p.i3 == b && p.i2 == c
  }

  /** The tables missing on the way to `v` when there are those for `pages` and no others. */
  ghost function MissingFor(pages: PageSet, v: Path): nat {
    if Below2(pages, v.i4, v.i3, v.i2) then 0
    else if Below3(pages, v.i4, v.i3) then 1
    else if Below4(pages, v.i4) then 2
    else 3
  }

  /** No space has a table without a page below it. */
  ghost predicate Tight(mem: Memory, role: Roles) {
    forall r, v :: IsRoot(role, r) && UserPath(v) ==> MissingTables(mem, r, v) == MissingFor(PagesOf(mem, r), v)
  }

  /** One page more. */
  lemma MissingForMore(pages: PageSet, p: Path, v: Path)
    ensures MissingFor(pages + iset{p}, v) == StillMissing(p, v, 3, MissingFor(pages, v))
  {
    var more := pages + iset{p};
    assert p in more;
    assert Below2(more, v.i4, v.i3, v.i2) <==>
           Below2(pages, v.i4, v.i3, v.i2) || (v.i4 == p.i4 && v.i3 == p.i3 && v.i2 == p.i2);
    assert Below3(more, v.i4, v.i3) <==> Below3(pages, v.i4, v.i3) || (v.i4 == p.i4 && v.i3 == p.i3);
    assert Below4(more, v.i4) <==> Below4(pages, v.i4) || v.i4 == p.i4;
  }

  // ------------------------------------------------------------ what keeps it

  /** Nothing changes about pages and tables. */
  lemma TightStill(mem: Memory, role: Roles, mem': Memory, role': Roles)
    requires Tight(mem, role) && SameMissing(mem, mem', role)
    requires forall q :: IsRoot(role', q) ==> IsRoot(role, q)
    requires forall q, p :: IsRoot(role, q) && UserPath(p) ==> Present(Walk(mem', q, p)) == Present(Walk(mem, q, p))
    ensures Tight(mem', role')
  {
    hide Walk, MissingTables, MissingFor;
    forall r, v | IsRoot(role', r) && UserPath(v) ensures MissingTables(mem', r, v) == MissingFor(PagesOf(mem', r), v) {
      assert PagesOf(mem', r) == PagesOf(mem, r);
    }
  }

  /** A page is mapped, with the tables on its way. */
  lemma TightMapped(mem: Memory, role: Roles, mem': Memory, role': Roles, root: nat, p: Path)
    requires Tight(mem, role) && IsRoot(role, root) && UserPath(p) && Present(Walk(mem', root, p))
    requires TablesMade(mem, mem', root, p, 3) && SameMissingBut(mem, mem', role, root, p)
    requires forall q :: IsRoot(role', q) ==> IsRoot(role, q)
    requires forall q, v :: IsRoot(role, q) && UserPath(v) && (q != root || v != p) ==>
               Present(Walk(mem', q, v)) == Present(Walk(mem, q, v))
    ensures Tight(mem', role')
  {
    hide Walk, MissingTables, MissingFor, StillMissing;
    forall r, v | IsRoot(role', r) && UserPath(v) ensures MissingTables(mem', r, v) == MissingFor(PagesOf(mem', r), v) {
      if r == root {
        assert PagesOf(mem', r) == PagesOf(mem, r) + iset{p};
        MissingForMore(PagesOf(mem, r), p, v);
      } else {
        assert PagesOf(mem', r) == PagesOf(mem, r);
      }
    }
  }

  /** A space `c` appears whose pages and tables are those of `r`. */
  lemma TightForked(mem: Memory, role: Roles, mem': Memory, role': Roles, r: nat, c: nat)
    requires Tight(mem, role) && SameMissing(mem, mem', role) && IsRoot(role, r)
    requires forall q :: IsRoot(role', q) ==> IsRoot(role, q) || q == c
    requires forall q, p :: IsRoot(role, q) && UserPath(p) ==> Present(Walk(mem', q, p)) == Present(Walk(mem, q, p))
    requires forall p :: UserPath(p) ==> Present(Walk(mem', c, p)) == Present(Walk(mem, r, p))
    requires forall v :: UserPath(v) ==> MissingTables(mem', c, v) == MissingTables(mem, r, v)
    ensures Tight(mem', role')
  {
    hide Walk, MissingTables, MissingFor;
    forall q, v | IsRoot(role', q) && UserPath(v) ensures MissingTables(mem', q, v) == MissingFor(PagesOf(mem', q), v) {
      if q == c {
        assert PagesOf(mem', c) == PagesOf(mem, r);
      } else {
        assert PagesOf(mem', q) == PagesOf(mem, q);
      }
    }
  }

  /** An empty space appears. */
  lemma TightSpawned(mem: Memory, role: Roles, mem': Memory, role': Roles, n: nat)
    requires Tight(mem, role) && SameMissing(mem, mem', role)
    requires forall q :: IsRoot(role', q) ==> IsRoot(role, q) || q == n
    requires forall q, p :: IsRoot(role, q) && UserPath(p) ==> Present(Walk(mem', q, p)) == Present(Walk(mem, q, p))
    requires forall v :: UserPath(v) ==> !Present(Walk(mem', n, v)) && MissingTables(mem', n, v) == 3
    requires !IsRoot(role, n)
    ensures Tight(mem', role')
  {
    hide Walk, MissingTables;
    forall q, v | IsRoot(role', q) && UserPath(v) ensures MissingTables(mem', q, v) == MissingFor(PagesOf(mem', q), v) {
      if q == n {
        assert PagesOf(mem', n) == iset{};
      } else {
        assert PagesOf(mem', q) == PagesOf(mem, q);
      }
    }
  }

  // ------------------------------------------------------- counting tables

  /** The number of page tables below pages with the first two indices and a third below `k`. */
  ghost function Count2(pages: PageSet, a: nat, b: nat, k: nat): nat {
    if k == 0 then 0 else Count2(pages, a, b, k - 1) + if Below2(pages, a, b, k - 1) then 1 else 0
  }

  ghost function Count3(pages: PageSet, a: nat, k: nat): nat {
    if k == 0 then 0 else
    Count3(pages, a, k - 1) + if Below3(pages, a, k - 1) then 1 + Count2(pages, a, k - 1, ENTRIES) else 0
  }

  ghost function Count4(pages: PageSet, k: nat): nat {
    if k == 0 then 0 else
    Count4(pages, k - 1) + if Below4(pages, k - 1) then 1 + Count3(pages, k - 1, ENTRIES) else 0
  }

  /** The number of tables of a space with these pages. */
  ghost function TableCount(pages: PageSet): nat { Count4(pages, 510) }

  /** One page more adds to the count exactly the tables that were missing for it, so that
      fork copies as many tables as the mappings of the parent's pages have made. */
  lemma TableCountMore(pages: PageSet, p: Path)
    requires UserPath(p)
    ensures TableCount(pages + iset{p}) == TableCount(pages) + MissingFor(pages, p)
    ensures TableCount(iset{}) == 0
  {
    Count4More(pages, p, 510);
    NoPagesNoTables(510);
  }

  lemma {:induction false} NoPagesNoTables(k: nat)
    ensures Count4(iset{}, k) == 0
  {
    if k == 0 {
    } else {
      NoPagesNoTables(k - 1);
    }
  }

  /** Nothing is counted where no page lies. */
  lemma {:induction false} Count2None(pages: PageSet, a: nat, b: nat, k: nat)
    requires !Below3(pages, a, b)
    ensures Count2(pages, a, b, k) == 0
    decreases k
  {
    if k == 0 {
    } else {
      Count2None(pages, a, b, k - 1);
    }
  }

  lemma {:induction false} Count3None(pages: PageSet, a: nat, k: nat)
    requires !Below4(pages, a)
    ensures Count3(pages, a, k) == 0
    decreases k
  {
    if k == 0 {
    } else {
      Count3None(pages, a, k - 1);
    }
  }

  lemma MoreBelow(pages: PageSet, p: Path, a: nat, b: nat, c: nat)
    ensures Below2(pages + iset{p}, a, b, c) <==> Below2(pages, a, b, c) || (a == p.i4 && b == p.i3 && c == p.i2)
    ensures Below3(pages + iset{p}, a, b) <==> Below3(pages, a, b) || (a == p.i4 && b == p.i3)
    ensures Below4(pages + iset{p}, a) <==> Below4(pages, a) || a == p.i4
  {
    assert p in pages + iset{p};
  }

  lemma {:induction false} Count2More(pages: PageSet, p: Path, a: nat, b: nat, k: nat)
    ensures Count2(pages + iset{p}, a, b, k) ==
            Count2(pages, a, b, k)
            + if a == p.i4 && b == p.i3 && p.i2 < k && !Below2(pages, a, b, p.i2) then 1 else 0
    decreases k
  {
    if k == 0 {
    } else {
      Count2More(pages, p, a, b, k - 1);
      MoreBelow(pages, p, a, b, k - 1);
    }
  }

  lemma {:induction false} Count3More(pages: PageSet, p: Path, a: nat, k: nat)
    requires ValidPath(p)
    ensures Count3(pages + iset{p}, a, k) ==
            Count3(pages, a, k)
            + if a == p.i4 && p.i3 < k
              then if !Below3(pages, a, p.i3) then 2 else if !Below2(pages, a, p.i3, p.i2) then 1 else 0
              else 0
    decreases k
  {
    if k == 0 {
    } else {
      Count3More(pages, p, a, k - 1);
      MoreBelow(pages, p, a, k - 1, p.i2);
      Count2More(pages, p, a, k - 1, ENTRIES);
      if !Below3(pages, a, k - 1) { Count2None(pages, a, k - 1, ENTRIES); }
      assert Below2(pages, a, k - 1, p.i2) ==> Below3(pages, a, k - 1);
    }
  }

  lemma {:induction false} Count4More(pages: PageSet, p: Path, k: nat)
    requires ValidPath(p)
    ensures Count4(pages + iset{p}, k) == Count4(pages, k) + if p.i4 < k then MissingFor(pages, p) else 0
    decreases k
  {
    if k == 0 {
    } else {
      Count4More(pages, p, k - 1);
      MoreBelow(pages, p, k - 1, p.i3, p.i2);
      Count3More(pages, p, k - 1, ENTRIES);
      if !Below4(pages, k - 1) { Count3None(pages, k - 1, ENTRIES); }
      assert Below2(pages, p.i4, p.i3, p.i2) ==> Below3(pages, p.i4, p.i3);
      assert Below3(pages, p.i4, p.i3) ==> Below4(pages, p.i4);
    }
  }

  /** The tables below the root are the ones its pages need. */
  ghost predicate TightSpace(mem: Memory, r: nat) {
    forall v :: UserPath(v) ==> MissingTables(mem, r, v) == MissingFor(PagesOf(mem, r), v)
  }

  /** Entries are present exactly when a page lies below them. */
  lemma EntriesPresent(mem: Memory, r: nat, a: nat, b: nat, c: nat)
    requires TightSpace(mem, r) && a < 510 && b < ENTRIES && c < ENTRIES
    ensures var pages, e4 := PagesOf(mem, r), Entry(mem, r, a);
            && (Present(e4) <==> Below4(pages, a))
            && (Present(e4) ==>
                  var e3 := Entry(mem, e4.page, b);
                  && (Present(e3) <==> Below3(pages, a, b))
                  && (Present(e3) ==> (Present(Entry(mem, e3.page, c)) <==> Below2(pages, a, b, c))))
  {
    hide Walk;
    var pages, v := PagesOf(mem, r), Path(a, b, c, 0);
    assert MissingTables(mem, r, v) == MissingFor(pages, v);
    assert Below2(pages, a, b, c) ==> Below3(pages, a, b);
    assert Below3(pages, a, b) ==> Below4(pages, a);
  }

  lemma {:induction false} CountPdIs(mem: Memory, r: nat, a: nat, b: nat, k: nat)
    requires TightSpace(mem, r) && a < 510 && b < ENTRIES && k <= ENTRIES
    requires Present(Entry(mem, r, a)) && Present(Entry(mem, Entry(mem, r, a).page, b))
    ensures CountPd(mem, Entry(mem, Entry(mem, r, a).page, b).page, k) == Count2(PagesOf(mem, r), a, b, k)
  {
    if k == 0 {
    } else {
      CountPdIs(mem, r, a, b, k - 1);
      EntriesPresent(mem, r, a, b, k - 1);
    }
  }

  lemma {:induction false} CountPdpIs(mem: Memory, r: nat, a: nat, k: nat)
    requires TightSpace(mem, r) && a < 510 && k <= ENTRIES && Present(Entry(mem, r, a))
    ensures CountPdp(mem, Entry(mem, r, a).page, k) == Count3(PagesOf(mem, r), a, k)
  {
    if k == 0 {
    } else {
      CountPdpIs(mem, r, a, k - 1);
      EntriesPresent(mem, r, a, k - 1, 0);
      if Present(Entry(mem, Entry(mem, r, a).page, k - 1)) {
        CountPdIs(mem, r, a, k - 1, ENTRIES);
      }
    }
  }

  lemma {:induction false} CountRootIs(mem: Memory, r: nat, k: nat)
    requires TightSpace(mem, r) && k <= 510
    ensures CountRoot(mem, r, k) == Count4(PagesOf(mem, r), k)
  {
    if k == 0 {
    } else {
      CountRootIs(mem, r, k - 1);
      EntriesPresent(mem, r, k - 1, 0, 0);
      if Present(Entry(mem, r, k - 1)) {
        CountPdpIs(mem, r, k - 1, ENTRIES);
      }
    }
  }

  /** The tables that fork copies are counted by the pages of the parent. */
  lemma TablesAreCounted(mem: Memory, role: Roles, r: nat)
    requires Tight(mem, role) && IsRoot(role, r)
    ensures CountRoot(mem, r, 510) == TableCount(PagesOf(mem, r))
  {
    CountRootIs(mem, r, 510);
  }
}
