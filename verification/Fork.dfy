/** The table copy of forkSyscall (sys/syscall.c): four nested loops, one method
    for the body and one for the loop of each level. */
module Fork {
  import opened Paging
  import opened Spaces
  import opened Mmu
  import FrameAllocator

  /** Position `q` is `pos` or lies beneath it. */
  predicate AtOrUnder(q: Position, pos: Position) {
    match pos
    case L4 => true
    case L3(a) => !q.L4? && q.a == a
    case L2(a, b) => (q.L2? || q.L1?) && q.a == a && q.b == b
    case L1(a, b, c) => q == pos
  }

  predicate Directory(role: Role, o: Owner) { role.Table? && role.pos.L2? && role.owner == o }

  ghost predicate Touched(role: Role, o: Owner, pos: Position) {
    role.Table? && role.owner == o && AtOrUnder(role.pos, pos)
  }

  /** The copy of the subtree at `pos` from owner `o` changes child table `c`, the
      parent's leaf tables of the subtree, and frames that were free; nothing else. */
  ghost predicate CopyFrame(mem: Memory, role: Roles, mem': Memory, role': Roles, c: nat, o: Owner, pos: Position) {
    && Extends(role, role')
    && |mem'| == |mem| == |role|
    && (forall f :: 0 <= f < |role| && !role[f].Free? && f != c && !(Touched(role[f], o, pos) && role[f].pos.L1?) ==>
          mem'[f] == mem[f])
  }

  // -------------------------------------------------------- counting tables

  /** The page tables below the first `k` entries of a page directory. */
  ghost function CountPd(mem: Memory, t: nat, k: nat): nat {
    if k == 0 then 0 else CountPd(mem, t, k - 1) + PdEntryCost(mem, t, k - 1)
  }

  ghost function PdEntryCost(mem: Memory, t: nat, i: nat): nat { if Present(Entry(mem, t, i)) then 1 else 0 }

  /** The tables below the first `k` entries of a pointer table. */
  ghost function CountPdp(mem: Memory, t: nat, k: nat): nat {
    if k == 0 then 0 else CountPdp(mem, t, k - 1) + PdpEntryCost(mem, t, k - 1)
  }

  ghost function PdpEntryCost(mem: Memory, t: nat, i: nat): nat {
    if Present(Entry(mem, t, i)) then 1 + CountPd(mem, Entry(mem, t, i).page, ENTRIES) else 0
  }

  /** The tables below the first `k` entries of a root. */
  ghost function CountRoot(mem: Memory, r: nat, k: nat): nat {
    if k == 0 then 0 else CountRoot(mem, r, k - 1) + RootEntryCost(mem, r, k - 1)
  }

  ghost function RootEntryCost(mem: Memory, r: nat, i: nat): nat {
    if Present(Entry(mem, r, i)) then 1 + CountPdp(mem, Entry(mem, r, i).page, ENTRIES) else 0
  }

  lemma {:induction false} CountPdSame(mem: Memory, mem': Memory, t: nat, k: nat)
    requires t < |mem| && |mem'| == |mem| && mem'[t] == mem[t]
    ensures CountPd(mem', t, k) == CountPd(mem, t, k)
  {
    if k == 0 {
    } else {
      CountPdSame(mem, mem', t, k - 1);
    }
  }

  lemma {:induction false} CountPdpSame(mem: Memory, mem': Memory, role: Roles, t: nat, k: nat)
    requires TreeOk(mem, role) && |mem'| == |mem| && t < |role| && role[t].Table? && role[t].pos.L3? && k <= ENTRIES
    requires mem'[t] == mem[t]
    requires forall f :: 0 <= f < |role| && Directory(role[f], role[t].owner) ==> mem'[f] == mem[f]
    ensures CountPdp(mem', t, k) == CountPdp(mem, t, k)
  {
    if k == 0 {
    } else {
      CountPdpSame(mem, mem', role, t, k - 1);
      assert LinkTyped(mem, role, t, k - 1);
      var e := Entry(mem, t, k - 1);
      if Present(e) { CountPdSame(mem, mem', e.page, ENTRIES); }
    }
  }

  lemma {:induction false} CountsGrow(mem: Memory, t: nat, j: nat, k: nat)
    requires j <= k
    ensures CountPd(mem, t, j) <= CountPd(mem, t, k)
    ensures CountPdp(mem, t, j) <= CountPdp(mem, t, k)
    ensures CountRoot(mem, t, j) <= CountRoot(mem, t, k)
    decreases k
  {
    if j == k {
    } else {
      CountsGrow(mem, t, j, k - 1);
    }
  }

  // -------------------------------------------------- subtrees left alone

  lemma WalkPdKept(mem: Memory, mem': Memory, role: Roles, t: nat, i2: nat, i1: nat)
    requires TreeOk(mem, role) && t < |role| && role[t].Table? && role[t].pos.L2? && i2 < ENTRIES
    requires |mem'| == |mem| && Entry(mem', t, i2) == Entry(mem, t, i2)
    requires forall f :: 0 <= f < |role| && role[f] == ChildRole(role[t], i2) ==> mem'[f] == mem[f]
    ensures WalkPd(mem', t, i2, i1) == WalkPd(mem, t, i2, i1)
  {
    assert LinkTyped(mem, role, t, i2);
  }

  lemma WalkPdpKept(mem: Memory, mem': Memory, role: Roles, t: nat, i3: nat, i2: nat, i1: nat)
    requires TreeOk(mem, role) && t < |role| && role[t].Table? && role[t].pos.L3? && i3 < ENTRIES && i2 < ENTRIES
    requires |mem'| == |mem| && Entry(mem', t, i3) == Entry(mem, t, i3)
    requires forall f :: 0 <= f < |role| && Touched(role[f], role[t].owner, Below(role[t].pos, i3)) ==>
               mem'[f] == mem[f]
    ensures WalkPdp(mem', t, i3, i2, i1) == WalkPdp(mem, t, i3, i2, i1)
    ensures MissingPdp(mem', t, i3, i2) == MissingPdp(mem, t, i3, i2)
  {
    assert LinkTyped(mem, role, t, i3);
    var e := Entry(mem, t, i3);
    if Present(e) {
      WalkPdKept(mem, mem', role, e.page, i2, i1);
    }
  }

  lemma WalkKept(mem: Memory, mem': Memory, role: Roles, r: nat, p: Path)
    requires TreeOk(mem, role) && IsRoot(role, r) && ValidPath(p)
    requires |mem'| == |mem| && Entry(mem', r, p.i4) == Entry(mem, r, p.i4)
    requires forall f :: 0 <= f < |role| && Touched(role[f], OwnerAt(Space(r), L4, p.i4), L3(p.i4)) ==>
               mem'[f] == mem[f]
    ensures Walk(mem', r, p) == Walk(mem, r, p)
    ensures MissingTables(mem', r, p) == MissingTables(mem, r, p)
  {
    assert LinkTyped(mem, role, r, p.i4);
    var e := Entry(mem, r, p.i4);
    if Present(e) {
      WalkPdpKept(mem, mem', role, e.page, p.i3, p.i2, p.i1);
    }
  }

  // ------------------------------------------------------- level 1: leaves

  /** The innermost loop: both sides become copy-on-write. */
  method CopyPt(m: Machine, p: nat, c: nat)
    requires m.Valid() && p < |m.mem| && c < |m.mem| && p != c
    requires m.role[p].Table? && m.role[p].pos.L1? && m.role[c].Table? && m.role[c].pos.L1?
    requires m.mem[c] == ZeroFrame()
    modifies m`mem
    ensures m.Valid() && |m.mem| == |old(m.mem)|
    ensures forall f :: 0 <= f < |m.mem| && f != p && f != c ==> m.mem[f] == old(m.mem)[f]
    ensures forall i :: 0 <= i < ENTRIES ==>
              && Entry(m.mem, p, i) == ParentLeaf(Entry(old(m.mem), p, i))
              && Entry(m.mem, c, i) == ChildLeaf(Entry(old(m.mem), p, i))
  {
    var i := 0;
    while i < ENTRIES
      invariant 0 <= i <= ENTRIES
      invariant m.Valid() && |m.mem| == |old(m.mem)|
      invariant forall f :: 0 <= f < |m.mem| && f != p && f != c ==> m.mem[f] == old(m.mem)[f]
      invariant forall j :: 0 <= j < i ==>
                  && Entry(m.mem, p, j) == ParentLeaf(Entry(old(m.mem), p, j))
                  && Entry(m.mem, c, j) == ChildLeaf(Entry(old(m.mem), p, j))
      invariant forall j :: i <= j < ENTRIES ==>
                  && Entry(m.mem, p, j) == Entry(old(m.mem), p, j)
                  && Entry(m.mem, c, j) == ZERO
    {
      var entry := m.mem[p][i];
      if Present(entry) {
        entry := Word(entry.page, P_BIT | U_BIT | COW_BIT);
        LeafWriteKeepsTree(m.mem, m.role, c, i, entry);
        m.mem := SetEntry(m.mem, c, i, entry);
        LeafWriteKeepsTree(m.mem, m.role, p, i, entry);
        m.mem := SetEntry(m.mem, p, i, entry);
      }
      i := i + 1;
    }
  }

  // --------------------------------------- level 2: entries of a directory

  ghost predicate PdCopied(mem: Memory, mem': Memory, p: nat, c: nat, i2: nat) {
    && MissingPd(mem', c, i2) == MissingPd(mem, p, i2)
    && forall i1 :: 0 <= i1 < ENTRIES ==>
         && WalkPd(mem', p, i2, i1) == ParentLeaf(WalkPd(mem, p, i2, i1))
         && WalkPd(mem', c, i2, i1) == ChildLeaf(WalkPd(mem, p, i2, i1))
  }

  ghost predicate PdKept(mem: Memory, mem': Memory, t: nat, i2: nat) {
    && Entry(mem', t, i2) == Entry(mem, t, i2)
    && forall i1 :: 0 <= i1 < ENTRIES ==> WalkPd(mem', t, i2, i1) == WalkPd(mem, t, i2, i1)
  }

  method CopyPdEntry(m: Machine, p: nat, c: nat, i2: nat) returns (ok: bool)
    requires m.Valid() && p < |m.mem| && c < |m.mem| && i2 < ENTRIES
    requires m.role[p].Table? && m.role[p].pos.L2? && m.role[p].owner.Space?
    requires m.role[c].Table? && m.role[c].pos == m.role[p].pos
    requires m.role[c].owner.Space? && m.role[c].owner != m.role[p].owner
    requires Entry(m.mem, c, i2) == ZERO
    modifies m`mem, m`role, m.pages`firstFree, m.pages.pageMap
    ensures m.Valid()
    ensures CopyFrame(old(m.mem), old(m.role), m.mem, m.role, c, old(m.role)[p].owner, Below(old(m.role)[p].pos, i2))
    ensures forall j :: 0 <= j < ENTRIES && j != i2 ==>
              PdKept(old(m.mem), m.mem, p, j) && PdKept(old(m.mem), m.mem, c, j)
    ensures ok ==> PdCopied(old(m.mem), m.mem, p, c, i2)
    ensures ok <==> |FreeFrames(old(m.role))| > PdEntryCost(old(m.mem), p, i2)
    ensures ok ==> |FreeFrames(m.role)| + PdEntryCost(old(m.mem), p, i2) == |FreeFrames(old(m.role))|
    ensures !ok ==> m.Exhausted()
  {
    hide FrameAllocator.IsFreeList, FrameAllocator.FreeSet, FreeFrames, Machine.Exhausted;
    m.FreeIsFreeFrames();
    ghost var mem0, role0 := m.mem, m.role;
    assert LinkTyped(m.mem, m.role, p, i2);
    var e := m.mem[p][i2];
    if !Present(e) {
      return true;
    }
    var c1;
    ok, c1 := m.TableAlloc(c, i2, 7);
    if !ok { return; }
    assert m.mem[c1] == ZeroFrame();
    CopyPt(m, e.page, c1);
    forall j | 0 <= j < ENTRIES && j != i2
      ensures PdKept(mem0, m.mem, p, j) && PdKept(mem0, m.mem, c, j)
    {
      forall i1 | 0 <= i1 < ENTRIES
        ensures WalkPd(m.mem, p, j, i1) == WalkPd(mem0, p, j, i1)
        ensures WalkPd(m.mem, c, j, i1) == WalkPd(mem0, c, j, i1)
      {
        WalkPdKept(mem0, m.mem, role0, p, j, i1);
        WalkPdKept(mem0, m.mem, role0, c, j, i1);
      }
    }
  }

  method CopyPd(m: Machine, p: nat, c: nat) returns (ok: bool)
    requires m.Valid() && p < |m.mem| && c < |m.mem|
    requires m.role[p].Table? && m.role[p].pos.L2? && m.role[p].owner.Space?
    requires m.role[c].Table? && m.role[c].pos == m.role[p].pos
    requires m.role[c].owner.Space? && m.role[c].owner != m.role[p].owner
    requires m.mem[c] == ZeroFrame()
    modifies m`mem, m`role, m.pages`firstFree, m.pages.pageMap
    ensures m.Valid()
    ensures CopyFrame(old(m.mem), old(m.role), m.mem, m.role, c, old(m.role)[p].owner, old(m.role)[p].pos)
    ensures ok ==> forall j :: 0 <= j < ENTRIES ==> PdCopied(old(m.mem), m.mem, p, c, j)
    ensures ok <==> |FreeFrames(old(m.role))| > CountPd(old(m.mem), p, ENTRIES)
    ensures ok ==> |FreeFrames(m.role)| + CountPd(old(m.mem), p, ENTRIES) == |FreeFrames(old(m.role))|
    ensures !ok ==> m.Exhausted()
  {
    hide FrameAllocator.IsFreeList, FrameAllocator.FreeSet, FreeFrames, Machine.Exhausted;
    ghost var mem0, role0 := m.mem, m.role;
    var i := 0;
    while i < ENTRIES
      invariant 0 <= i <= ENTRIES
      invariant m.Valid()
      invariant CopyFrame(mem0, role0, m.mem, m.role, c, role0[p].owner, role0[p].pos)
      invariant forall j :: 0 <= j < i ==> PdCopied(mem0, m.mem, p, c, j)
      invariant forall j :: i <= j < ENTRIES ==> PdKept(mem0, m.mem, p, j) && PdKept(mem0, m.mem, c, j)
      invariant |FreeFrames(m.role)| + CountPd(mem0, p, i) == |FreeFrames(role0)|
    {
      assert PdKept(mem0, m.mem, c, i) && PdKept(mem0, m.mem, p, i);
      ghost var mem1 := m.mem;
      ok := CopyPdEntry(m, p, c, i);
      if !ok {
        CountsGrow(mem0, p, i + 1, ENTRIES);
        return;
      }
      PdAdvance(mem0, mem1, m.mem, p, c, i);
      i := i + 1;
    }
    ok := true;
    m.FreeIsFreeFrames();
  }

  lemma PdAdvance(mem0: Memory, mem1: Memory, mem2: Memory, p: nat, c: nat, i: nat)
    requires forall j :: 0 <= j < i ==> PdCopied(mem0, mem1, p, c, j)
    requires forall j :: i <= j < ENTRIES ==> PdKept(mem0, mem1, p, j) && PdKept(mem0, mem1, c, j)
    requires forall j :: 0 <= j < ENTRIES && j != i ==> PdKept(mem1, mem2, p, j) && PdKept(mem1, mem2, c, j)
    requires i < ENTRIES && PdCopied(mem1, mem2, p, c, i)
    ensures forall j :: 0 <= j <= i ==> PdCopied(mem0, mem2, p, c, j)
    ensures forall j :: i < j < ENTRIES ==> PdKept(mem0, mem2, p, j) && PdKept(mem0, mem2, c, j)
  {
    forall j | 0 <= j <= i ensures PdCopied(mem0, mem2, p, c, j) {
      if j < i {
        assert PdCopied(mem0, mem1, p, c, j) && PdKept(mem1, mem2, p, j) && PdKept(mem1, mem2, c, j);
      } else {
        assert PdKept(mem0, mem1, p, j);
      }
    }
    forall j | i < j < ENTRIES ensures PdKept(mem0, mem2, p, j) && PdKept(mem0, mem2, c, j) {
      assert PdKept(mem0, mem1, p, j) && PdKept(mem0, mem1, c, j);
      assert PdKept(mem1, mem2, p, j) && PdKept(mem1, mem2, c, j);
    }
  }

  // ---------------------------------- level 3: entries of a pointer table

  ghost predicate PdpCopied(mem: Memory, mem': Memory, p: nat, c: nat, i3: nat) {
    && (forall i2 :: 0 <= i2 < ENTRIES ==> MissingPdp(mem', c, i3, i2) == MissingPdp(mem, p, i3, i2))
    && forall i2, i1 :: 0 <= i2 < ENTRIES && 0 <= i1 < ENTRIES ==>
         && WalkPdp(mem', p, i3, i2, i1) == ParentLeaf(WalkPdp(mem, p, i3, i2, i1))
         && WalkPdp(mem', c, i3, i2, i1) == ChildLeaf(WalkPdp(mem, p, i3, i2, i1))
  }

  ghost predicate PdpKept(mem: Memory, mem': Memory, t: nat, i3: nat) {
    && Entry(mem', t, i3) == Entry(mem, t, i3)
    && (forall i2 :: 0 <= i2 < ENTRIES ==> MissingPdp(mem', t, i3, i2) == MissingPdp(mem, t, i3, i2))
    && forall i2, i1 :: 0 <= i2 < ENTRIES && 0 <= i1 < ENTRIES ==>
         WalkPdp(mem', t, i3, i2, i1) == WalkPdp(mem, t, i3, i2, i1)
  }

  method CopyPdpEntry(m: Machine, p: nat, c: nat, i3: nat) returns (ok: bool)
    requires m.Valid() && p < |m.mem| && c < |m.mem| && i3 < ENTRIES
    requires m.role[p].Table? && m.role[p].pos.L3? && m.role[p].owner.Space?
    requires m.role[c].Table? && m.role[c].pos == m.role[p].pos
    requires m.role[c].owner.Space? && m.role[c].owner != m.role[p].owner
    requires Entry(m.mem, c, i3) == ZERO
    modifies m`mem, m`role, m.pages`firstFree, m.pages.pageMap
    ensures m.Valid()
    ensures CopyFrame(old(m.mem), old(m.role), m.mem, m.role, c, old(m.role)[p].owner, Below(old(m.role)[p].pos, i3))
    ensures forall j :: 0 <= j < ENTRIES && j != i3 ==>
              PdpKept(old(m.mem), m.mem, p, j) && PdpKept(old(m.mem), m.mem, c, j)
    ensures ok ==> PdpCopied(old(m.mem), m.mem, p, c, i3)
    ensures ok <==> |FreeFrames(old(m.role))| > PdpEntryCost(old(m.mem), p, i3)
    ensures ok ==> |FreeFrames(m.role)| + PdpEntryCost(old(m.mem), p, i3) == |FreeFrames(old(m.role))|
    ensures !ok ==> m.Exhausted()
  {
    hide FrameAllocator.IsFreeList, FrameAllocator.FreeSet, FreeFrames, CountPd, Machine.Exhausted, WalkPd, WalkPdp,
         MissingPdp, PdpCopied, PdCopied, PdpKept;
    m.FreeIsFreeFrames();
    ghost var mem0, role0 := m.mem, m.role;
    NothingChanged(mem0);
    assert LinkTyped(m.mem, m.role, p, i3);
    var e := m.mem[p][i3];
    if !Present(e) {
      NothingToCopy(mem0, p, c, i3);
      return true;
    }
    var c2;
    ok, c2 := m.TableAlloc(c, i3, 7);
    if !ok { return; }
    ghost var mem1 := m.mem;
    assert m.mem[c2] == ZeroFrame();
    CountPdSame(mem0, mem1, e.page, ENTRIES);
    ok := CopyPd(m, e.page, c2);
    forall j | 0 <= j < ENTRIES && j != i3 ensures PdpKept(mem0, m.mem, p, j) && PdpKept(mem0, m.mem, c, j) {
      PdpUntouched(mem0, m.mem, role0, p, j);
      PdpUntouched(mem0, m.mem, role0, c, j);
    }
    if ok {
      PdpFromPd(mem0, role0, mem1, m.mem, p, c, e.page, c2, i3);
    }
  }

  lemma PdpUntouched(mem: Memory, mem': Memory, role: Roles, t: nat, i3: nat)
    requires TreeOk(mem, role) && t < |role| && role[t].Table? && role[t].pos.L3? && i3 < ENTRIES
    requires |mem'| == |mem| && Entry(mem', t, i3) == Entry(mem, t, i3)
    requires forall f :: 0 <= f < |role| && Touched(role[f], role[t].owner, Below(role[t].pos, i3)) ==>
               mem'[f] == mem[f]
    ensures PdpKept(mem, mem', t, i3)
  {
    hide WalkPdp, MissingPdp;
    forall i2, i1 | 0 <= i2 < ENTRIES && 0 <= i1 < ENTRIES
      ensures WalkPdp(mem', t, i3, i2, i1) == WalkPdp(mem, t, i3, i2, i1)
    {
      WalkPdpKept(mem, mem', role, t, i3, i2, i1);
    }
    forall i2 | 0 <= i2 < ENTRIES ensures MissingPdp(mem', t, i3, i2) == MissingPdp(mem, t, i3, i2) {
      WalkPdpKept(mem, mem', role, t, i3, i2, 0);
    }
  }

  lemma NothingToCopy(mem: Memory, p: nat, c: nat, i3: nat)
    requires !Present(Entry(mem, p, i3)) && Entry(mem, c, i3) == ZERO
    ensures PdpCopied(mem, mem, p, c, i3)
  { }

  lemma NothingChanged(mem: Memory)
    ensures forall t, j :: PdpKept(mem, mem, t, j)
  { }

  /** Copied directories make copied translations. */
  lemma PdpFromPd(mem0: Memory, role: Roles, mem1: Memory, mem': Memory,
                  p: nat, c: nat, t: nat, c2: nat, i3: nat)
    requires TreeOk(mem0, role) && t < |role| && role[t].Table? && role[t].pos.L2?
    requires c < |role| && role[c].Table? && role[c].pos.L3?
    requires |mem1| == |mem0| && forall f :: 0 <= f < |mem0| && f != c ==> mem1[f] == mem0[f]
    requires Present(Entry(mem0, p, i3)) && Entry(mem0, p, i3).page == t && Entry(mem', p, i3) == Entry(mem0, p, i3)
    requires Present(Entry(mem', c, i3)) && Entry(mem', c, i3).page == c2
    requires forall i2 :: 0 <= i2 < ENTRIES ==> PdCopied(mem1, mem', t, c2, i2)
    ensures PdpCopied(mem0, mem', p, c, i3)
  {
    hide WalkPd;
    forall i2, i1 | 0 <= i2 < ENTRIES && 0 <= i1 < ENTRIES
      ensures WalkPdp(mem', p, i3, i2, i1) == ParentLeaf(WalkPdp(mem0, p, i3, i2, i1))
      ensures WalkPdp(mem', c, i3, i2, i1) == ChildLeaf(WalkPdp(mem0, p, i3, i2, i1))
    {
      assert PdCopied(mem1, mem', t, c2, i2);
      WalkPdKept(mem0, mem1, role, t, i2, i1);
    }
    forall i2 | 0 <= i2 < ENTRIES ensures MissingPdp(mem', c, i3, i2) == MissingPdp(mem0, p, i3, i2) {
      assert PdCopied(mem1, mem', t, c2, i2) && Entry(mem1, t, i2) == Entry(mem0, t, i2);
    }
  }

  method CopyPdp(m: Machine, p: nat, c: nat) returns (ok: bool)
    requires m.Valid() && p < |m.mem| && c < |m.mem|
    requires m.role[p].Table? && m.role[p].pos.L3? && m.role[p].owner.Space?
    requires m.role[c].Table? && m.role[c].pos == m.role[p].pos
    requires m.role[c].owner.Space? && m.role[c].owner != m.role[p].owner
    requires m.mem[c] == ZeroFrame()
    modifies m`mem, m`role, m.pages`firstFree, m.pages.pageMap
    ensures m.Valid()
    ensures CopyFrame(old(m.mem), old(m.role), m.mem, m.role, c, old(m.role)[p].owner, old(m.role)[p].pos)
    ensures ok ==> forall j :: 0 <= j < ENTRIES ==> PdpCopied(old(m.mem), m.mem, p, c, j)
    ensures ok <==> |FreeFrames(old(m.role))| > CountPdp(old(m.mem), p, ENTRIES)
    ensures ok ==> |FreeFrames(m.role)| + CountPdp(old(m.mem), p, ENTRIES) == |FreeFrames(old(m.role))|
    ensures !ok ==> m.Exhausted()
  {
    hide FrameAllocator.IsFreeList, FrameAllocator.FreeSet, FreeFrames, Machine.Exhausted;
    ghost var mem0, role0 := m.mem, m.role;
    var i := 0;
    while i < ENTRIES
      invariant 0 <= i <= ENTRIES
      invariant m.Valid()
      invariant CopyFrame(mem0, role0, m.mem, m.role, c, role0[p].owner, role0[p].pos)
      invariant forall j :: 0 <= j < i ==> PdpCopied(mem0, m.mem, p, c, j)
      invariant forall j :: i <= j < ENTRIES ==> PdpKept(mem0, m.mem, p, j) && PdpKept(mem0, m.mem, c, j)
      invariant |FreeFrames(m.role)| + CountPdp(mem0, p, i) == |FreeFrames(role0)|
    {
      assert PdpKept(mem0, m.mem, c, i) && PdpKept(mem0, m.mem, p, i);
      ghost var mem1 := m.mem;
      SameCountBelow(mem0, mem1, role0, p, i);
      ok := CopyPdpEntry(m, p, c, i);
      if !ok {
        CountsGrow(mem0, p, i + 1, ENTRIES);
        return;
      }
      PdpAdvance(mem0, mem1, m.mem, p, c, i);
      i := i + 1;
    }
    ok := true;
    m.FreeIsFreeFrames();
  }

  /** Copying leaves the directories that are still to be copied as they were. */
  lemma SameCountBelow(mem0: Memory, mem1: Memory, role: Roles, p: nat, i: nat)
    requires TreeOk(mem0, role) && |mem1| == |mem0| && p < |role| && role[p].Table? && role[p].pos.L3? && i < ENTRIES
    requires Entry(mem1, p, i) == Entry(mem0, p, i)
    requires forall f :: 0 <= f < |role| && Directory(role[f], role[p].owner) ==> mem1[f] == mem0[f]
    ensures Present(Entry(mem0, p, i)) ==>
              CountPd(mem1, Entry(mem0, p, i).page, ENTRIES) == CountPd(mem0, Entry(mem0, p, i).page, ENTRIES)
  {
    assert LinkTyped(mem0, role, p, i);
    if Present(Entry(mem0, p, i)) { CountPdSame(mem0, mem1, Entry(mem0, p, i).page, ENTRIES); }
  }

  lemma PdpAdvance(mem0: Memory, mem1: Memory, mem2: Memory, p: nat, c: nat, i: nat)
    requires forall j :: 0 <= j < i ==> PdpCopied(mem0, mem1, p, c, j)
    requires forall j :: i <= j < ENTRIES ==> PdpKept(mem0, mem1, p, j) && PdpKept(mem0, mem1, c, j)
    requires forall j :: 0 <= j < ENTRIES && j != i ==> PdpKept(mem1, mem2, p, j) && PdpKept(mem1, mem2, c, j)
    requires i < ENTRIES && PdpCopied(mem1, mem2, p, c, i)
    ensures forall j :: 0 <= j <= i ==> PdpCopied(mem0, mem2, p, c, j)
    ensures forall j :: i < j < ENTRIES ==> PdpKept(mem0, mem2, p, j) && PdpKept(mem0, mem2, c, j)
  {
    forall j | 0 <= j <= i ensures PdpCopied(mem0, mem2, p, c, j) {
      if j < i {
        assert PdpCopied(mem0, mem1, p, c, j) && PdpKept(mem1, mem2, p, j) && PdpKept(mem1, mem2, c, j);
      } else {
        assert PdpKept(mem0, mem1, p, j);
      }
    }
    forall j | i < j < ENTRIES ensures PdpKept(mem0, mem2, p, j) && PdpKept(mem0, mem2, c, j) {
      assert PdpKept(mem0, mem1, p, j) && PdpKept(mem0, mem1, c, j);
      assert PdpKept(mem1, mem2, p, j) && PdpKept(mem1, mem2, c, j);
    }
  }

  // ------------------------------------------- level 4: entries of the root

  ghost predicate RootCopied(mem: Memory, mem': Memory, p: nat, c: nat, i4: nat) {
    forall v: Path :: ValidPath(v) && v.i4 == i4 ==>
      && Walk(mem', p, v) == ParentLeaf(Walk(mem, p, v))
      && Walk(mem', c, v) == ChildLeaf(Walk(mem, p, v))
      && MissingTables(mem', c, v) == MissingTables(mem, p, v)
  }

  ghost predicate RootKept(mem: Memory, mem': Memory, t: nat, i4: nat) {
    && Entry(mem', t, i4) == Entry(mem, t, i4)
    && forall v: Path :: ValidPath(v) && v.i4 == i4 ==>
         Walk(mem', t, v) == Walk(mem, t, v) && MissingTables(mem', t, v) == MissingTables(mem, t, v)
  }

  method CopyRootEntry(m: Machine, p: nat, c: nat, i4: nat) returns (ok: bool)
    requires m.Valid() && IsRoot(m.role, p) && IsRoot(m.role, c) && p != c && i4 < 510
    requires Entry(m.mem, c, i4) == ZERO
    modifies m`mem, m`role, m.pages`firstFree, m.pages.pageMap
    ensures m.Valid()
    ensures CopyFrame(old(m.mem), old(m.role), m.mem, m.role, c, Space(p), L3(i4))
    ensures forall j :: 0 <= j < ENTRIES && j != i4 ==>
              RootKept(old(m.mem), m.mem, p, j) && RootKept(old(m.mem), m.mem, c, j)
    ensures ok ==> RootCopied(old(m.mem), m.mem, p, c, i4)
    ensures ok <==> |FreeFrames(old(m.role))| > RootEntryCost(old(m.mem), p, i4)
    ensures ok ==> |FreeFrames(m.role)| + RootEntryCost(old(m.mem), p, i4) == |FreeFrames(old(m.role))|
    ensures !ok ==> m.Exhausted()
  {
    hide FrameAllocator.IsFreeList, FrameAllocator.FreeSet, WalkPdp, FreeFrames, CountPdp, Machine.Exhausted;
    m.FreeIsFreeFrames();
    ghost var mem0, role0 := m.mem, m.role;
    assert LinkTyped(m.mem, m.role, p, i4);
    var e := m.mem[p][i4];
    if !Present(e) {
      return true;
    }
    var c3;
    ok, c3 := m.TableAlloc(c, i4, 7);
    if !ok { return; }
    ghost var mem1 := m.mem;
    assert m.mem[c3] == ZeroFrame();
    CountPdpSame(mem0, mem1, role0, e.page, ENTRIES);
    ok := CopyPdp(m, e.page, c3);
    forall v: Path | ValidPath(v) && v.i4 != i4
      ensures Walk(m.mem, p, v) == Walk(mem0, p, v) && MissingTables(m.mem, p, v) == MissingTables(mem0, p, v)
      ensures Walk(m.mem, c, v) == Walk(mem0, c, v) && MissingTables(m.mem, c, v) == MissingTables(mem0, c, v)
    {
      WalkKept(mem0, m.mem, role0, p, v);
      WalkKept(mem0, m.mem, role0, c, v);
    }
    if ok {
      forall v: Path | ValidPath(v) && v.i4 == i4
        ensures Walk(m.mem, p, v) == ParentLeaf(Walk(mem0, p, v))
        ensures Walk(m.mem, c, v) == ChildLeaf(Walk(mem0, p, v))
        ensures MissingTables(m.mem, c, v) == MissingTables(mem0, p, v)
      {
        WalkPdpKept(mem0, mem1, role0, e.page, v.i3, v.i2, v.i1);
        RootFromPdp(mem0, mem1, m.mem, p, c, e.page, c3, v);
      }
    }
  }

  /** Copied pointer tables make copied translations. */
  lemma RootFromPdp(mem0: Memory, mem1: Memory, mem': Memory, p: nat, c: nat, t: nat, c3: nat, v: Path)
    requires Present(Entry(mem0, p, v.i4)) && Entry(mem0, p, v.i4).page == t
    requires Entry(mem', p, v.i4) == Entry(mem0, p, v.i4)
    requires Present(Entry(mem', c, v.i4)) && Entry(mem', c, v.i4).page == c3
    requires ValidPath(v) && PdpCopied(mem1, mem', t, c3, v.i3)
    requires WalkPdp(mem1, t, v.i3, v.i2, v.i1) == WalkPdp(mem0, t, v.i3, v.i2, v.i1)
    requires MissingPdp(mem1, t, v.i3, v.i2) == MissingPdp(mem0, t, v.i3, v.i2)
    ensures Walk(mem', p, v) == ParentLeaf(Walk(mem0, p, v)) && Walk(mem', c, v) == ChildLeaf(Walk(mem0, p, v))
    ensures MissingTables(mem', c, v) == MissingTables(mem0, p, v)
  { }

  method CopyRoot(m: Machine, p: nat, c: nat) returns (ok: bool)
    requires m.Valid() && IsRoot(m.role, p) && IsRoot(m.role, c) && p != c
    requires m.mem[c] == ZeroFrame()
    modifies m`mem, m`role, m.pages`firstFree, m.pages.pageMap
    ensures m.Valid()
    ensures CopyFrame(old(m.mem), old(m.role), m.mem, m.role, c, Space(p), L4)
    ensures m.mem[p] == old(m.mem)[p]
    ensures ok ==> forall j :: 0 <= j < 510 ==> RootCopied(old(m.mem), m.mem, p, c, j)
    ensures ok ==> forall j :: 510 <= j < ENTRIES ==> Entry(m.mem, c, j) == ZERO
    ensures ok <==> |FreeFrames(old(m.role))| > CountRoot(old(m.mem), p, 510)
    ensures ok ==> |FreeFrames(m.role)| + CountRoot(old(m.mem), p, 510) == |FreeFrames(old(m.role))|
    ensures !ok ==> m.Exhausted()
  {
    hide FrameAllocator.IsFreeList, FrameAllocator.FreeSet, FreeFrames, Machine.Exhausted;
    ghost var mem0, role0 := m.mem, m.role;
    var i := 0;
    while i < 510
      invariant 0 <= i <= 510
      invariant m.Valid()
      invariant CopyFrame(mem0, role0, m.mem, m.role, c, Space(p), L4)
      invariant m.mem[p] == mem0[p]
      invariant forall j :: 0 <= j < i ==> RootCopied(mem0, m.mem, p, c, j)
      invariant forall j :: i <= j < ENTRIES ==> RootKept(mem0, m.mem, p, j) && RootKept(mem0, m.mem, c, j)
      invariant |FreeFrames(m.role)| + CountRoot(mem0, p, i) == |FreeFrames(role0)|
    {
      assert RootKept(mem0, m.mem, c, i) && RootKept(mem0, m.mem, p, i);
      ghost var mem1 := m.mem;
      SameCountBelowRoot(mem0, mem1, role0, p, i);
      ok := CopyRootEntry(m, p, c, i);
      if !ok {
        CountsGrow(mem0, p, i + 1, 510);
        return;
      }
      RootAdvance(mem0, mem1, m.mem, p, c, i);
      i := i + 1;
    }
    ok := true;
    m.FreeIsFreeFrames();
    forall j | 510 <= j < ENTRIES ensures Entry(m.mem, c, j) == ZERO {
      assert RootKept(mem0, m.mem, c, j);
    }
  }

  /** Copying leaves the inner tables that are still to be copied as they were. */
  lemma SameCountBelowRoot(mem0: Memory, mem1: Memory, role: Roles, p: nat, i: nat)
    requires TreeOk(mem0, role) && |mem1| == |mem0| && IsRoot(role, p) && i < 510
    requires Entry(mem1, p, i) == Entry(mem0, p, i)
    requires forall f :: 0 <= f < |role| && Inner(role[f]) && role[f].owner == Space(p) && f != p ==> mem1[f] == mem0[f]
    ensures Present(Entry(mem0, p, i)) ==>
              CountPdp(mem1, Entry(mem0, p, i).page, ENTRIES) == CountPdp(mem0, Entry(mem0, p, i).page, ENTRIES)
  {
    assert LinkTyped(mem0, role, p, i);
    if Present(Entry(mem0, p, i)) { CountPdpSame(mem0, mem1, role, Entry(mem0, p, i).page, ENTRIES); }
  }

  lemma RootAdvance(mem0: Memory, mem1: Memory, mem2: Memory, p: nat, c: nat, i: nat)
    requires forall j :: 0 <= j < i ==> RootCopied(mem0, mem1, p, c, j)
    requires forall j :: i <= j < ENTRIES ==> RootKept(mem0, mem1, p, j) && RootKept(mem0, mem1, c, j)
    requires forall j :: 0 <= j < ENTRIES && j != i ==> RootKept(mem1, mem2, p, j) && RootKept(mem1, mem2, c, j)
    requires i < ENTRIES && RootCopied(mem1, mem2, p, c, i)
    ensures forall j :: 0 <= j <= i ==> RootCopied(mem0, mem2, p, c, j)
    ensures forall j :: i < j < ENTRIES ==> RootKept(mem0, mem2, p, j) && RootKept(mem0, mem2, c, j)
  {
    forall j | 0 <= j <= i ensures RootCopied(mem0, mem2, p, c, j) {
      if j < i {
        assert RootCopied(mem0, mem1, p, c, j) && RootKept(mem1, mem2, p, j) && RootKept(mem1, mem2, c, j);
      } else {
        assert RootKept(mem0, mem1, p, j);
      }
    }
    forall j | i < j < ENTRIES ensures RootKept(mem0, mem2, p, j) && RootKept(mem0, mem2, c, j) {
      assert RootKept(mem0, mem1, p, j) && RootKept(mem0, mem1, c, j);
      assert RootKept(mem1, mem2, p, j) && RootKept(mem1, mem2, c, j);
    }
  }
}
