/** Four-level page tables as values (sys/mmu.c; the four-level paging structures
    are those of the Intel SDM, volume 3A, chapter "Paging").

    Physical memory is a sequence of frames of 512 words.  A 64-bit word is kept
    split at bit 12, because every operation of the kernel on table entries either
    masks with 0xFFFFFFFFFFFFF000 or sets low bits.  A pointer to a frame and the
    same pointer with 0xffffffff80000000 set in it denote the same frame.
 */
module Paging {
  import opened Integers

  const ENTRIES: nat := 512

  /** A 64-bit word: bits 12 and up, and the twelve bits below. */
  datatype Word = Word(page: nat, low: bv12)

  const P_BIT: bv12 := 0x1
  const W_BIT: bv12 := 0x2
  const U_BIT: bv12 := 0x4
  const COW_BIT: bv12 := 0x100

  /** The processor's accessed and dirty bits, which it sets on its own. */
  const ACCESSED: bv12 := 0x20
  const DIRTY: bv12 := 0x40

  const ZERO := Word(0, 0)

  type Frame = seq<Word>
  type Memory = seq<Frame>

  function ZeroFrame(): (f: Frame)
    ensures |f| == ENTRIES && forall i :: 0 <= i < ENTRIES ==> f[i] == ZERO
  {
    seq(ENTRIES, _ => ZERO)
  }

  predicate Present(w: Word) { w.low & P_BIT != 0 }
  predicate Writable(w: Word) { w.low & W_BIT != 0 }
  predicate CopyOnWrite(w: Word) { w.low & COW_BIT != 0 }

  /** The low bits but for those the processor sets. */
  function Flags(w: Word): bv12 { w.low & 0xF9F }

  /** Two words that differ in accessed and dirty bits at most. */
  predicate SameButMarks(w: Word, w': Word) { w'.page == w.page && Flags(w') == Flags(w) }

  predicate Shape(mem: Memory) {
    forall f :: 0 <= f < |mem| ==> |mem[f]| == ENTRIES
  }

  /** The word at index `i` of frame `f`. */
  function Entry(mem: Memory, f: nat, i: nat): Word {
    if f < |mem| && i < |mem[f]| then mem[f][i] else ZERO
  }

  function SetEntry(mem: Memory, f: nat, i: nat, w: Word): Memory
    requires f < |mem| && i < |mem[f]|
  {
    mem[f := mem[f][i := w]]
  }

  // -------------------------------------------------------------- addresses

  const TWO12: nat := 0x1000
  const TWO21: nat := 0x20_0000
  const TWO30: nat := 0x4000_0000
  const TWO39: nat := 0x80_0000_0000
  const TWO47: nat := 0x8000_0000_0000
  const TWO48: nat := 0x1_0000_0000_0000

  /** The four table indices of a page, from the root down. */
  datatype Path = Path(i4: nat, i3: nat, i2: nat, i1: nat)

  predicate ValidPath(p: Path) {
    p.i4 < ENTRIES && p.i3 < ENTRIES && p.i2 < ENTRIES && p.i1 < ENTRIES
  }

  /** Below root index 510 every space has tables of its own. */
  predicate UserPath(p: Path) {
    ValidPath(p) && p.i4 < 510
  }

  /** getIndex with `unit` the power of two of the shift. */
  function GetIndex(address: nat, unit: nat): nat
    requires unit > 0
  {
    (address / unit) % ENTRIES
  }

  function PathOf(address: nat): (p: Path)
    ensures ValidPath(p)
  {
    Path(GetIndex(address, TWO39), GetIndex(address, TWO30),
         GetIndex(address, TWO21), GetIndex(address, TWO12))
  }

  /** Bits 47 and up agree. */
  predicate Canonical(address: nat) {
    address < TWO48 / 2 || TWO64 - TWO48 / 2 <= address < TWO64
  }

  /** Shifting right by 9 more bits divides by 512 once more. */
  lemma Shifts(a: nat)
    ensures a / TWO21 == (a / TWO12) / 512
    ensures a / TWO30 == (a / TWO21) / 512
    ensures a / TWO39 == (a / TWO30) / 512
  { }

  /** The four indices, the offset and the bits above bit 47 make up the address. */
  lemma IndicesDecompose(a: nat)
    ensures var p := PathOf(a);
            a == (a / TWO39) / 512 * TWO48 + p.i4 * TWO39 + p.i3 * TWO30 + p.i2 * TWO21 + p.i1 * TWO12 + a % TWO12
  {
    Shifts(a);
  }

  /** The bits above bit 47 of a canonical address repeat bit 47. */
  lemma CanonicalTop(a: nat)
    requires Canonical(a)
    ensures (a / TWO39) / 512 == if PathOf(a).i4 < 256 then 0 else 0xffff
  {
    var q := a / TWO39;
    assert q < 256 || 0x1ff_ff00 <= q < 0x200_0000;
  }

  /** Two canonical addresses have the same path exactly when they lie in one page. */
  lemma SamePathSamePage(a: nat, b: nat)
    requires Canonical(a) && Canonical(b)
    ensures PathOf(a) == PathOf(b) <==> a / TWO12 == b / TWO12
  {
    if a / TWO12 == b / TWO12 {
      Shifts(a);
      Shifts(b);
    } else if PathOf(a) == PathOf(b) {
      CanonicalTop(a);
      CanonicalTop(b);
      IndicesDecompose(a);
      IndicesDecompose(b);
      SamePage(a, b, a - a % TWO12);
    }
  }

  lemma SamePage(a: nat, b: nat, page: nat)
    requires a == page + a % TWO12 && b == page + b % TWO12
    ensures a / TWO12 == b / TWO12
  { }

  function PageOf(address: nat): nat { address / TWO12 }

  /** The path of page number `page`. */
  function PagePath(page: nat): Path { PathOf(page * TWO12) }

  /** The lower half of the addresses is the users', */
  lemma PagePathOf(a: nat)
    requires a < TWO47
    ensures PathOf(a) == PagePath(PageOf(a)) && UserPath(PathOf(a))
  {
    SamePathSamePage(a, PageOf(a) * TWO12);
    assert a / TWO39 < 256;
  }

  /** and its pages have different paths. */
  lemma PagePathsDiffer(x: nat, y: nat)
    requires x != y && x * TWO12 < TWO47 && y * TWO12 < TWO47
    ensures PagePath(x) != PagePath(y)
  {
    SamePathSamePage(x * TWO12, y * TWO12);
    assert x * TWO12 / TWO12 == x && y * TWO12 / TWO12 == y;
  }

  /** The path of 0xffffffff80000000 plus the address of frame `f`. */
  function DirectPath(f: nat): Path {
    Path(511, 510 + f / 0x4_0000, (f / 0x200) % 0x200, f % 0x200)
  }

  lemma DirectPathIsPathOf(f: nat)
    requires f < 0x8_0000
    ensures PathOf(0xffff_ffff_8000_0000 + f * TWO12) == DirectPath(f)
    ensures ValidPath(DirectPath(f))
  {
    var a := 0xffff_ffff_8000_0000 + f * TWO12;
    var n := a / TWO12;
    assert n == 0xf_ffff_fff8_0000 + f;
    Shifts(a);
    DirectIndices(f, n);
  }

  lemma DirectIndices(f: nat, n: nat)
    requires f < 0x8_0000 && n == 0xf_ffff_fff8_0000 + f
    ensures n % 512 == f % 512
    ensures (n / 512) % 512 == (f / 512) % 512
    ensures (n / 512 / 512) % 512 == 510 + f / 0x4_0000
    ensures (n / 512 / 512 / 512) % 512 == 511
  {
    assert n / 512 == 0x7ff_ffff_fc00 + f / 512;
    assert n / 512 / 512 == 0x3_ffff_fffe + f / 512 / 512;
  }

  lemma DirectPathInjective(f: nat, g: nat)
    requires DirectPath(f) == DirectPath(g)
    ensures f == g
  {
    assert f / 0x4_0000 == (f / 0x200) / 0x200;
    assert g / 0x4_0000 == (g / 0x200) / 0x200;
  }

  // ------------------------------------------------------------------ walks

  /** The leaf entry that a page directory leads to, or ZERO. */
  function WalkPd(mem: Memory, t: nat, i2: nat, i1: nat): Word {
    var e := Entry(mem, t, i2);
    if Present(e) then Entry(mem, e.page, i1) else ZERO
  }

  function WalkPdp(mem: Memory, t: nat, i3: nat, i2: nat, i1: nat): Word {
    var e := Entry(mem, t, i3);
    if Present(e) then WalkPd(mem, e.page, i2, i1) else ZERO
  }

  /** The leaf entry of `p` in the space of root `r`, or ZERO when a table of the
      way is missing: physicalAddress. */
  function Walk(mem: Memory, r: nat, p: Path): Word {
    var e := Entry(mem, r, p.i4);
    if Present(e) then WalkPdp(mem, e.page, p.i3, p.i2, p.i1) else ZERO
  }

  /** The leaf entry of an address: physicalAddress. */
  function Translate(mem: Memory, r: nat, address: nat): Word {
    Walk(mem, r, PathOf(address))
  }

  // ------------------------------------------------------- the use of frames

  datatype Owner = Space(root: nat) | Kernel

  /** Where a table stands: the indices that lead to it. */
  datatype Position = L4 | L3(a: nat) | L2(a: nat, b: nat) | L1(a: nat, b: nat, c: nat)

  /** What a frame is used for.  `Kern` is any frame in the hands of the kernel
      that is no page table, `Owned` a user page that one leaf maps writable, and
      `Shared` a user page that leaves map copy-on-write. */
  datatype Role =
    | Free
    | Kern
    | Table(owner: Owner, pos: Position)
    | Owned(root: nat, path: Path)
    | Shared

  type Roles = seq<Role>

  function OwnerAt(o: Owner, pos: Position, i: nat): Owner {
    if pos == L4 && i >= 510 then Kernel else o
  }

  function Below(pos: Position, i: nat): Position {
    match pos
    case L4 => L3(i)
    case L3(a) => L2(a, i)
    case L2(a, b) => L1(a, b, i)
    case L1(_, _, _) => pos
  }

  /** The role of the table that entry `i` of a table with role `t` points to. */
  function ChildRole(t: Role, i: nat): Role
    requires t.Table?
  {
    Table(OwnerAt(t.owner, t.pos, i), Below(t.pos, i))
  }

  predicate Inner(role: Role) { role.Table? && !role.pos.L1? }

  function RootRole(r: nat): Role { Table(Space(r), L4) }

  predicate IsRoot(role: Roles, r: nat) { r < |role| && role[r] == RootRole(r) }

  /** Entry `i` of inner table `f` leads, if present, to the table of that place;
      in the tables of a space it grants user and write access. */
  predicate LinkTyped(mem: Memory, role: Roles, f: nat, i: nat)
    requires f < |role|
  {
    Inner(role[f]) && Present(Entry(mem, f, i)) ==>
      EntryTyped(role, ChildRole(role[f], i), Entry(mem, f, i))
  }

  predicate EntryTyped(role: Roles, child: Role, e: Word)
    requires child.Table?
  {
    && e.page < |role|
    && role[e.page] == child
    && (child.owner.Space? ==> Flags(e) == 7)
  }

  /** Every frame is used as its role says: free frames are zero, and tables form
      trees, each table in one place of one tree. */
  ghost predicate TreeOk(mem: Memory, role: Roles) {
    && |mem| == |role|
    && Shape(mem)
    && (forall f :: 0 <= f < |role| && role[f].Free? ==> mem[f] == ZeroFrame())
    && (forall f :: 0 <= f < |role| && role[f].Table? && role[f].pos.L4? ==> role[f] == RootRole(f))
    && (forall f, i :: 0 <= f < |role| && 0 <= i < ENTRIES ==> LinkTyped(mem, role, f, i))
  }

  /** Frames in use keep their use; frames handed out become tables below a root. */
  ghost predicate Extends(role: Roles, role': Roles) {
    && |role'| == |role|
    && (forall f :: 0 <= f < |role| && !role[f].Free? ==> role'[f] == role[f])
    && (forall f :: 0 <= f < |role| && role[f].Free? && !role'[f].Free? ==> role'[f].Table? && !role'[f].pos.L4?)
  }

  /** Frames that are neither free nor tables keep their contents. */
  ghost predicate SameContents(mem: Memory, mem': Memory, role: Roles) {
    |mem'| == |mem| == |role| &&
    forall f :: 0 <= f < |role| && !role[f].Free? && !role[f].Table? ==> mem'[f] == mem[f]
  }

  /** No translation of any space changes. */
  ghost predicate SameWalks(mem: Memory, mem': Memory, role: Roles) {
    forall r, p :: IsRoot(role, r) && ValidPath(p) ==> Walk(mem', r, p) == Walk(mem, r, p)
  }

  /** Only page `p` of space `r` is translated anew, to `w`.  A page of the half
      that all spaces share may be translated anew in the others, too. */
  ghost predicate WalksUpdated(mem: Memory, mem': Memory, role: Roles, r: nat, p: Path, w: Word) {
    && Walk(mem', r, p) == w
    && (forall r', p' :: IsRoot(role, r') && ValidPath(p') && (p' != p || (r' != r && UserPath(p))) ==>
          Walk(mem', r', p') == Walk(mem, r', p'))
    && (forall r', p' :: IsRoot(role, r') && ValidPath(p') ==>
          Walk(mem', r', p') == w || Walk(mem', r', p') == Walk(mem, r', p'))
  }

  /** New tables twice are new tables. */
  lemma ExtendTwice(mem0: Memory, role0: Roles, mem1: Memory, role1: Roles, mem2: Memory, role2: Roles)
    requires Extends(role0, role1) && SameContents(mem0, mem1, role0) && SameWalks(mem0, mem1, role0)
    requires Extends(role1, role2) && SameContents(mem1, mem2, role1) && SameWalks(mem1, mem2, role1)
    ensures Extends(role0, role2) && SameContents(mem0, mem2, role0) && SameWalks(mem0, mem2, role0)
  {
    hide Walk;
  }

  lemma ExtendedRoot(role: Roles, role': Roles, r: nat)
    requires Extends(role, role') && IsRoot(role, r)
    ensures IsRoot(role', r) && |role'| == |role|
  { }

  // ----------------------------------------------------------- free frames

  /** The frames not handed out. */
  ghost function FreeFrames(role: Roles): set<nat> {
    set f: nat | f < |role| && role[f].Free?
  }

  lemma TakenFrame(role: Roles, f: nat, to: Role)
    requires f < |role| && role[f].Free? && !to.Free?
    ensures FreeFrames(role[f := to]) == FreeFrames(role) - {f}
    ensures |FreeFrames(role[f := to])| + 1 == |FreeFrames(role)|
  {
    assert FreeFrames(role[f := to]) == FreeFrames(role) - {f};
    assert f in FreeFrames(role);
  }

  /** Frames in use can change hands among their users without cost. */
  lemma RetaggedFrame(role: Roles, f: nat, to: Role)
    requires f < |role| && !role[f].Free? && !to.Free?
    ensures FreeFrames(role[f := to]) == FreeFrames(role)
  {
    var role' := role[f := to];
    assert forall g: nat :: g in FreeFrames(role') <==> g in FreeFrames(role);
  }

  /** The number of tables that mapping `p` in the space of `r` has to make. */
  function MissingTables(mem: Memory, r: nat, p: Path): nat {
    var e := Entry(mem, r, p.i4);
    if Present(e) then MissingPdp(mem, e.page, p.i3, p.i2) else 3
  }

  /** Of these, those below a pointer table. */
  function MissingPdp(mem: Memory, t: nat, i3: nat, i2: nat): nat {
    var e := Entry(mem, t, i3);
    if Present(e) then MissingPd(mem, e.page, i2) else 2
  }

  function MissingPd(mem: Memory, t: nat, i2: nat): nat {
    if Present(Entry(mem, t, i2)) then 0 else 1
  }

  // ---------------------------------------------------------------- lemmas

  /** All three tables below the root are there. */
  predicate HasTables(mem: Memory, r: nat, p: Path) {
    var e4 := Entry(mem, r, p.i4);
    var e3 := Entry(mem, e4.page, p.i3);
    Present(e4) && Present(e3) && Present(Entry(mem, e3.page, p.i2))
  }

  /** The page table that holds the leaf entry of `p`. */
  function LeafTable(mem: Memory, r: nat, p: Path): nat {
    Entry(mem, Entry(mem, Entry(mem, r, p.i4).page, p.i3).page, p.i2).page
  }

  /** In a typed memory a walk from a root passes through tables of the right places. */
  lemma WalkTyped(mem: Memory, role: Roles, r: nat, p: Path)
    requires TreeOk(mem, role) && IsRoot(role, r) && ValidPath(p)
    ensures var o := OwnerAt(Space(r), L4, p.i4);
            var e4 := Entry(mem, r, p.i4);
            Present(e4) ==>
              && e4.page < |role| && role[e4.page] == Table(o, L3(p.i4))
              && var e3 := Entry(mem, e4.page, p.i3);
                 Present(e3) ==>
                   && e3.page < |role| && role[e3.page] == Table(o, L2(p.i4, p.i3))
                   && var e2 := Entry(mem, e3.page, p.i2);
                      Present(e2) ==>
                        e2.page < |role| && role[e2.page] == Table(o, L1(p.i4, p.i3, p.i2))
  {
    assert LinkTyped(mem, role, r, p.i4);
    var e4 := Entry(mem, r, p.i4);
    if Present(e4) {
      assert LinkTyped(mem, role, e4.page, p.i3);
      var e3 := Entry(mem, e4.page, p.i3);
      if Present(e3) {
        assert LinkTyped(mem, role, e3.page, p.i2);
      }
    }
  }

  /** A free frame taken by the kernel, or a user page changing hands, leaves the
      trees alone. */
  lemma RetagKeepsTree(mem: Memory, role: Roles, f: nat, to: Role)
    requires TreeOk(mem, role) && f < |role| && !role[f].Table? && !to.Table? && !to.Free?
    ensures TreeOk(mem, role[f := to])
  {
    var role' := role[f := to];
    forall g, j | 0 <= g < |role| && 0 <= j < ENTRIES ensures LinkTyped(mem, role', g, j) {
      assert LinkTyped(mem, role, g, j);
    }
  }

  /** An empty frame becomes the root of a new space. */
  lemma EmptyRootKeepsTree(mem: Memory, role: Roles, n: nat)
    requires TreeOk(mem, role) && n < |role| && role[n].Kern? && mem[n] == ZeroFrame()
    ensures TreeOk(mem, role[n := RootRole(n)])
    ensures forall p :: ValidPath(p) ==> Walk(mem, n, p) == ZERO
  {
    var role' := role[n := RootRole(n)];
    forall g, j | 0 <= g < |role| && 0 <= j < ENTRIES ensures LinkTyped(mem, role', g, j) {
      assert LinkTyped(mem, role, g, j);
      assert g == n ==> Entry(mem, g, j) == ZERO;
    }
    forall p | ValidPath(p) ensures Walk(mem, n, p) == ZERO {
      assert Entry(mem, n, p.i4) == ZERO;
    }
  }

  /** A root entry of the shared half copied to another root: the two spaces now
      translate that part alike, and nothing else changes. */
  lemma ShareRootEntry(mem: Memory, role: Roles, n: nat, r: nat, i: nat, q: nat, p: Path)
    requires TreeOk(mem, role) && IsRoot(role, n) && IsRoot(role, r) && n != r && 510 <= i < ENTRIES
    requires IsRoot(role, q) && ValidPath(p)
    ensures var mem' := SetEntry(mem, n, i, Entry(mem, r, i));
            Walk(mem', q, p) == if q == n && p.i4 == i then Walk(mem, r, p) else Walk(mem, q, p)
  {
    WalkTyped(mem, role, q, p);
    WalkTyped(mem, role, r, p);
  }

  lemma ShareRootEntryKeepsTree(mem: Memory, role: Roles, n: nat, r: nat, i: nat)
    requires TreeOk(mem, role) && IsRoot(role, n) && IsRoot(role, r) && 510 <= i < ENTRIES
    ensures TreeOk(SetEntry(mem, n, i, Entry(mem, r, i)), role)
  {
    var mem' := SetEntry(mem, n, i, Entry(mem, r, i));
    assert LinkTyped(mem, role, r, i);
    forall g, j | 0 <= g < |role| && 0 <= j < ENTRIES ensures LinkTyped(mem', role, g, j) {
      assert LinkTyped(mem, role, g, j);
      assert g != n || j != i ==> Entry(mem', g, j) == Entry(mem, g, j);
    }
  }

  /** Linking an empty, so far unused table into a free slot changes no translation. */
  lemma LinkKeepsWalks(mem: Memory, role: Roles, t: nat, i: nat, n: nat, flags: bv12, mem': Memory, r: nat, p: Path)
    requires TreeOk(mem, role) && t < |role| && Inner(role[t]) && i < ENTRIES
    requires !Present(Entry(mem, t, i))
    requires n < |role| && role[n].Free? && flags & P_BIT != 0
    requires mem' == SetEntry(mem, t, i, Word(n, flags))
    requires IsRoot(role, r) && ValidPath(p)
    ensures Walk(mem', r, p) == Walk(mem, r, p)
  {
    WalkTyped(mem, role, r, p);
    assert forall j :: Entry(mem, n, j) == ZERO;
  }

  /** Entry `i` of table `t` is one that a walk along `v` uses to find a table. */
  predicate OnWay(mem: Memory, r: nat, v: Path, t: nat, i: nat) {
    var e4 := Entry(mem, r, v.i4);
    var e3 := Entry(mem, e4.page, v.i3);
    || (t == r && i == v.i4)
    || (Present(e4) && t == e4.page && i == v.i3)
    || (Present(e4) && Present(e3) && t == e3.page && i == v.i2)
  }

  /** The table behind entry `i` of table `t` is there: one table less is missing on every
      way through that entry, if it was not there before. */
  ghost predicate Linked(mem: Memory, mem': Memory, role: Roles, t: nat, i: nat) {
    forall r, v :: IsRoot(role, r) && ValidPath(v) ==>
      MissingTables(mem, r, v) ==
      MissingTables(mem', r, v) + if OnWay(mem, r, v, t, i) && !Present(Entry(mem, t, i)) then 1 else 0
  }

  lemma LinkMissing(mem: Memory, role: Roles, t: nat, i: nat, n: nat, flags: bv12, mem': Memory)
    requires TreeOk(mem, role) && t < |role| && Inner(role[t]) && i < ENTRIES
    requires !Present(Entry(mem, t, i))
    requires n < |role| && role[n].Free? && flags & P_BIT != 0
    requires mem' == SetEntry(mem, t, i, Word(n, flags))
    ensures Linked(mem, mem', role, t, i)
  {
    forall r, v | IsRoot(role, r) && ValidPath(v)
      ensures MissingTables(mem, r, v) == MissingTables(mem', r, v) + if OnWay(mem, r, v, t, i) then 1 else 0
    {
      WalkTyped(mem, role, r, v);
      assert forall j :: Entry(mem, n, j) == ZERO;
    }
  }

  /** The user pages of all spaces have the same tables missing on their ways. */
  ghost predicate SameMissing(mem: Memory, mem': Memory, role: Roles) {
    forall r, v :: IsRoot(role, r) && UserPath(v) ==> MissingTables(mem', r, v) == MissingTables(mem, r, v)
  }

  /** That is so in all spaces but that of `root`, and in that, too, unless `p` is a user page. */
  ghost predicate SameMissingBut(mem: Memory, mem': Memory, role: Roles, root: nat, p: Path) {
    forall r, v :: IsRoot(role, r) && UserPath(v) && (r != root || !UserPath(p)) ==>
      MissingTables(mem', r, v) == MissingTables(mem, r, v)
  }

  /** A table linked on the way to `p` is on no user's way in another space. */
  lemma LinkedElsewhere(mem: Memory, mem': Memory, role: Roles, t: nat, i: nat, root: nat, p: Path)
    requires TreeOk(mem, role) && IsRoot(role, root) && ValidPath(p) && t < |role| && role[t].Table?
    requires Linked(mem, mem', role, t, i)
    requires (t == root && i == p.i4) || (role[t].owner == OwnerAt(Space(root), L4, p.i4) && !role[t].pos.L4?)
    ensures SameMissingBut(mem, mem', role, root, p)
  {
    forall r, v | IsRoot(role, r) && UserPath(v) && (r != root || !UserPath(p))
      ensures MissingTables(mem', r, v) == MissingTables(mem, r, v)
    {
      WalkTyped(mem, role, r, v);
      assert !OnWay(mem, r, v, t, i);
    }
  }

  lemma SameMissingTwice(mem0: Memory, mem1: Memory, mem2: Memory, role0: Roles, role1: Roles, root: nat, p: Path)
    requires SameMissingBut(mem0, mem1, role0, root, p) && SameMissingBut(mem1, mem2, role1, root, p)
    requires forall q :: IsRoot(role0, q) ==> IsRoot(role1, q)
    ensures SameMissingBut(mem0, mem2, role0, root, p)
  {
    hide MissingTables;
  }

  /** The tables missing on the way to `v`, at most `k`, after those on the way to `p` were made
      down to the given depth. */
  function StillMissing(p: Path, v: Path, depth: nat, k: nat): nat
    requires depth <= 3
  {
    var common := if v.i4 != p.i4 then 0 else if v.i3 != p.i3 then 1 else if v.i2 != p.i2 then 2 else 3;
    var made := if common < depth then common else depth;
    if k + made > 3 then 3 - made else k
  }

  /** In the space of `r` the tables on the way to `p` were made, down to the given depth, and
      no others. */
  ghost predicate TablesMade(mem: Memory, mem': Memory, r: nat, p: Path, depth: nat)
    requires depth <= 3
  {
    forall v :: ValidPath(v) ==> MissingTables(mem', r, v) == StillMissing(p, v, depth, MissingTables(mem, r, v))
  }

  lemma MadeRootEntry(mem: Memory, mem': Memory, role: Roles, r: nat, p: Path)
    requires TreeOk(mem, role) && IsRoot(role, r) && ValidPath(p) && Linked(mem, mem', role, r, p.i4)
    ensures TablesMade(mem, mem', r, p, 1)
  {
    forall v | ValidPath(v)
      ensures MissingTables(mem', r, v) == StillMissing(p, v, 1, MissingTables(mem, r, v))
    {
      WalkTyped(mem, role, r, v);
    }
  }

  lemma MadePdpEntry(mem0: Memory, mem: Memory, mem': Memory, role: Roles, r: nat, p: Path)
    requires TreeOk(mem, role) && IsRoot(role, r) && ValidPath(p) && Present(Entry(mem, r, p.i4))
    requires Linked(mem, mem', role, Entry(mem, r, p.i4).page, p.i3)
    requires TablesMade(mem0, mem, r, p, 1)
    ensures TablesMade(mem0, mem', r, p, 2)
  {
    forall v | ValidPath(v)
      ensures MissingTables(mem', r, v) == StillMissing(p, v, 2, MissingTables(mem0, r, v))
    {
      WalkTyped(mem, role, r, v);
      WalkTyped(mem, role, r, p);
    }
  }

  lemma MadePdEntry(mem0: Memory, mem: Memory, mem': Memory, role: Roles, r: nat, p: Path)
    requires TreeOk(mem, role) && IsRoot(role, r) && ValidPath(p) && Present(Entry(mem, r, p.i4))
    requires Present(Entry(mem, Entry(mem, r, p.i4).page, p.i3))
    requires Linked(mem, mem', role, Entry(mem, Entry(mem, r, p.i4).page, p.i3).page, p.i2)
    requires TablesMade(mem0, mem, r, p, 2)
    ensures TablesMade(mem0, mem', r, p, 3)
  {
    forall v | ValidPath(v)
      ensures MissingTables(mem', r, v) == StillMissing(p, v, 3, MissingTables(mem0, r, v))
    {
      WalkTyped(mem, role, r, v);
      WalkTyped(mem, role, r, p);
    }
  }

  /** Linking keeps the typing, when the new table gets the role of its place. */
  lemma LinkKeepsTree(mem: Memory, role: Roles, t: nat, i: nat, n: nat, flags: bv12)
    requires TreeOk(mem, role) && t < |role| && Inner(role[t]) && i < ENTRIES
    requires !Present(Entry(mem, t, i))
    requires n < |role| && role[n].Free?
    requires ChildRole(role[t], i).owner.Space? ==> flags == 7
    ensures TreeOk(SetEntry(mem, t, i, Word(n, flags)), role[n := ChildRole(role[t], i)])
  {
    var mem' := SetEntry(mem, t, i, Word(n, flags));
    var role' := role[n := ChildRole(role[t], i)];
    assert n != t;
    forall f, j | 0 <= f < |role| && 0 <= j < ENTRIES ensures LinkTyped(mem', role', f, j) {
      if f == n {
        assert Entry(mem', f, j) == ZERO;
      } else {
        assert LinkTyped(mem, role, f, j);
        assert (f, j) != (t, i) ==> Entry(mem', f, j) == Entry(mem, f, j);
      }
    }
  }

  /** Writing a leaf entry changes exactly the one translation; a leaf of the shared
      half may change it in several spaces at once. */
  lemma LeafWrite(mem: Memory, role: Roles, r: nat, p: Path, w: Word, r': nat, p': Path)
    requires TreeOk(mem, role) && IsRoot(role, r) && ValidPath(p)
    requires HasTables(mem, r, p) && LeafTable(mem, r, p) < |mem|
    requires IsRoot(role, r') && ValidPath(p')
    ensures var mem' := SetEntry(mem, LeafTable(mem, r, p), p.i1, w);
            && (r' == r && p' == p ==> Walk(mem', r', p') == w)
            && (p' != p || (r' != r && UserPath(p)) ==> Walk(mem', r', p') == Walk(mem, r', p'))
            && (Walk(mem', r', p') == w || Walk(mem', r', p') == Walk(mem, r', p'))
  {
    WalkTyped(mem, role, r, p);
    WalkTyped(mem, role, r', p');
  }

  lemma LeafWriteUpdates(mem: Memory, role: Roles, r: nat, p: Path, w: Word)
    requires TreeOk(mem, role) && IsRoot(role, r) && ValidPath(p)
    requires HasTables(mem, r, p) && LeafTable(mem, r, p) < |mem|
    ensures WalksUpdated(mem, SetEntry(mem, LeafTable(mem, r, p), p.i1, w), role, r, p, w)
  {
    LeafWrite(mem, role, r, p, w, r, p);
    var mem' := SetEntry(mem, LeafTable(mem, r, p), p.i1, w);
    forall r', p' | IsRoot(role, r') && ValidPath(p')
      ensures p' != p || (r' != r && UserPath(p)) ==> Walk(mem', r', p') == Walk(mem, r', p')
      ensures Walk(mem', r', p') == w || Walk(mem', r', p') == Walk(mem, r', p')
    {
      LeafWrite(mem, role, r, p, w, r', p');
    }
  }

  /** A leaf entry is no table's. */
  lemma LeafWriteMissing(mem: Memory, role: Roles, t: nat, i: nat, w: Word, r: nat, v: Path)
    requires TreeOk(mem, role) && t < |role| && role[t].Table? && role[t].pos.L1? && i < ENTRIES
    requires IsRoot(role, r) && ValidPath(v)
    ensures MissingTables(SetEntry(mem, t, i, w), r, v) == MissingTables(mem, r, v)
  {
    WalkTyped(mem, role, r, v);
  }

  lemma LeafWriteKeepsTree(mem: Memory, role: Roles, t: nat, i: nat, w: Word)
    requires TreeOk(mem, role) && t < |role| && role[t].Table? && role[t].pos.L1? && i < ENTRIES
    ensures TreeOk(SetEntry(mem, t, i, w), role)
  {
    var mem' := SetEntry(mem, t, i, w);
    forall f, j | 0 <= f < |role| && 0 <= j < ENTRIES ensures LinkTyped(mem', role, f, j) {
      assert LinkTyped(mem, role, f, j);
      assert f != t ==> Entry(mem', f, j) == Entry(mem, f, j);
    }
  }

  /** A present leaf entry needs its tables. */
  lemma PresentHasTables(mem: Memory, r: nat, p: Path)
    requires Present(Walk(mem, r, p))
    ensures HasTables(mem, r, p) && Walk(mem, r, p) == Entry(mem, LeafTable(mem, r, p), p.i1)
  { }

  lemma LeafTableTyped(mem: Memory, role: Roles, r: nat, p: Path)
    requires TreeOk(mem, role) && IsRoot(role, r) && ValidPath(p) && HasTables(mem, r, p)
    ensures LeafTable(mem, r, p) < |role|
    ensures role[LeafTable(mem, r, p)] == Table(OwnerAt(Space(r), L4, p.i4), L1(p.i4, p.i3, p.i2))
  {
    WalkTyped(mem, role, r, p);
  }

  // ------------------------------------------------- the processor's marks

  /** The entry at index `i` of frame `f` with more bits set. */
  function Marked(mem: Memory, f: nat, i: nat, bits: bv12): Memory
    requires f < |mem| && i < |mem[f]|
  {
    SetEntry(mem, f, i, Word(mem[f][i].page, mem[f][i].low | bits))
  }

  predicate MarkBits(bits: bv12) { bits & 0xF9F == 0 }

  lemma MarkIsHarmless(mem: Memory, f: nat, i: nat, bits: bv12, g: nat, j: nat)
    requires f < |mem| && i < |mem[f]| && MarkBits(bits)
    ensures SameButMarks(Entry(mem, g, j), Entry(Marked(mem, f, i, bits), g, j))
  {
    MaskedOr(mem[f][i].low, bits);
  }

  lemma MaskedOr(x: bv12, bits: bv12)
    requires bits & 0xF9F == 0
    ensures (x | bits) & 0xF9F == x & 0xF9F
  { }

  lemma FlagsDecide(w: Word, w': Word)
    requires SameButMarks(w, w')
    ensures Present(w') == Present(w) && Writable(w') == Writable(w) && CopyOnWrite(w') == CopyOnWrite(w)
  {
    MaskDecides(w.low, w'.low);
  }

  lemma MaskDecides(x: bv12, y: bv12)
    requires x & 0xF9F == y & 0xF9F
    ensures x & P_BIT == y & P_BIT && x & W_BIT == y & W_BIT && x & U_BIT == y & U_BIT && x & COW_BIT == y & COW_BIT
  { }

  /** Marking any entry changes no translation but for marks. */
  lemma MarkKeepsWalks(mem: Memory, f: nat, i: nat, bits: bv12, r: nat, p: Path)
    requires f < |mem| && i < |mem[f]| && MarkBits(bits)
    ensures SameButMarks(Walk(mem, r, p), Walk(Marked(mem, f, i, bits), r, p))
  {
    var mem' := Marked(mem, f, i, bits);
    var e4 := Entry(mem, r, p.i4);
    MarkIsHarmless(mem, f, i, bits, r, p.i4);
    FlagsDecide(e4, Entry(mem', r, p.i4));
    var e3 := Entry(mem, e4.page, p.i3);
    MarkIsHarmless(mem, f, i, bits, e4.page, p.i3);
    FlagsDecide(e3, Entry(mem', e4.page, p.i3));
    var e2 := Entry(mem, e3.page, p.i2);
    MarkIsHarmless(mem, f, i, bits, e3.page, p.i2);
    FlagsDecide(e2, Entry(mem', e3.page, p.i2));
    MarkIsHarmless(mem, f, i, bits, e2.page, p.i1);
  }

  lemma MarkKeepsMissing(mem: Memory, role: Roles, f: nat, i: nat, bits: bv12)
    requires f < |mem| && i < |mem[f]| && MarkBits(bits)
    ensures SameMissing(mem, Marked(mem, f, i, bits), role)
  {
    var mem' := Marked(mem, f, i, bits);
    forall r, p | IsRoot(role, r) && UserPath(p) ensures MissingTables(mem', r, p) == MissingTables(mem, r, p) {
      var e4 := Entry(mem, r, p.i4);
      MarkIsHarmless(mem, f, i, bits, r, p.i4);
      FlagsDecide(e4, Entry(mem', r, p.i4));
      var e3 := Entry(mem, e4.page, p.i3);
      MarkIsHarmless(mem, f, i, bits, e4.page, p.i3);
      FlagsDecide(e3, Entry(mem', e4.page, p.i3));
      MarkIsHarmless(mem, f, i, bits, e3.page, p.i2);
      FlagsDecide(Entry(mem, e3.page, p.i2), Entry(mem', e3.page, p.i2));
    }
  }

  /** Marking an entry of a table keeps the trees typed. */
  lemma MarkKeepsTree(mem: Memory, role: Roles, f: nat, i: nat, bits: bv12)
    requires TreeOk(mem, role) && f < |role| && role[f].Table? && i < ENTRIES && MarkBits(bits)
    ensures TreeOk(Marked(mem, f, i, bits), role)
  {
    var mem' := Marked(mem, f, i, bits);
    forall g, j | 0 <= g < |role| && 0 <= j < ENTRIES ensures LinkTyped(mem', role, g, j) {
      assert LinkTyped(mem, role, g, j);
      MarkIsHarmless(mem, f, i, bits, g, j);
      FlagsDecide(Entry(mem, g, j), Entry(mem', g, j));
    }
  }

  /** The leaf entry of a mapped page stands in a page table. */
  lemma LeafEntry(mem: Memory, role: Roles, r: nat, p: Path)
    requires TreeOk(mem, role) && IsRoot(role, r) && ValidPath(p) && Present(Walk(mem, r, p))
    ensures HasTables(mem, r, p)
    ensures var t := LeafTable(mem, r, p);
            && t < |role| && t < |mem| && role[t].Table? && role[t].pos.L1?
            && p.i1 < |mem[t]| && mem[t][p.i1] == Walk(mem, r, p)
  {
    PresentHasTables(mem, r, p);
    LeafTableTyped(mem, role, r, p);
  }

  lemma MarkedIs(mem: Memory, t: nat, i: nat, bits: bv12, w: Word)
    requires t < |mem| && i < |mem[t]| && mem[t][i] == w
    ensures Marked(mem, t, i, bits) == SetEntry(mem, t, i, Word(w.page, w.low | bits))
  { }

  /** Marking a leaf entry. */
  lemma MarkLeaf(mem: Memory, role: Roles, r: nat, p: Path, bits: bv12)
    requires TreeOk(mem, role) && IsRoot(role, r) && ValidPath(p) && Present(Walk(mem, r, p))
    ensures var t, w := LeafTable(mem, r, p), Walk(mem, r, p);
            && t < |role| && role[t].Table? && role[t].pos.L1? && t < |mem| && p.i1 < |mem[t]|
            && WalksUpdated(mem, Marked(mem, t, p.i1, bits), role, r, p, Word(w.page, w.low | bits))
  {
    hide *;
    LeafEntry(mem, role, r, p);
    var w, t := Walk(mem, r, p), LeafTable(mem, r, p);
    LeafWriteUpdates(mem, role, r, p, Word(w.page, w.low | bits));
    MarkedIs(mem, t, p.i1, bits, w);
  }

  /** Translations up to marks. */
  ghost predicate SameWalksButMarks(mem: Memory, mem': Memory, role: Roles) {
    forall q, v :: IsRoot(role, q) && ValidPath(v) ==> SameButMarks(Walk(mem, q, v), Walk(mem', q, v))
  }

  lemma NothingMarked(mem: Memory, role: Roles)
    requires |mem| == |role|
    ensures SameWalksButMarks(mem, mem, role) && SameContents(mem, mem, role)
  { }

  lemma MarkEffect(mem: Memory, role: Roles, t: nat, i: nat, bits: bv12)
    requires TreeOk(mem, role) && t < |role| && role[t].Table? && i < ENTRIES && MarkBits(bits)
    ensures var mem' := Marked(mem, t, i, bits);
            TreeOk(mem', role) && SameWalksButMarks(mem, mem', role) && SameContents(mem, mem', role)
  {
    var mem' := Marked(mem, t, i, bits);
    MarkKeepsTree(mem, role, t, i, bits);
    hide Walk, MarkBits, SameButMarks, Marked;
    forall q, v | IsRoot(role, q) && ValidPath(v) ensures SameButMarks(Walk(mem, q, v), Walk(mem', q, v)) {
      MarkKeepsWalks(mem, t, i, bits, q, v);
    }
  }
}
