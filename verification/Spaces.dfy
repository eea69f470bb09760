/** Address spaces as seen by user programs, and the machine they are meant to
    observe: one in which fork copies every page into a private memory. */
module Spaces {
  import opened Paging

  // ------------------------------------------------------------ invariants

  /** A user leaf either maps a page of its own, writable, or a shared page,
      copy-on-write. */
  predicate LeafTyped(role: Roles, r: nat, p: Path, w: Word) {
    && w.page < |role|
    && ((Flags(w) == 7 && role[w.page] == Owned(r, p)) || (Flags(w) == 0x105 && role[w.page] == Shared))
  }

  ghost predicate LeafOk(mem: Memory, role: Roles) {
    forall r, p :: IsRoot(role, r) && UserPath(p) && Present(Walk(mem, r, p)) ==>
      LeafTyped(role, r, p, Walk(mem, r, p))
  }

  /** Frame `f` is visible, writable, at 0xffffffff80000000 plus its address. */
  predicate DirectMapped(mem: Memory, r: nat, f: nat) {
    var w := Walk(mem, r, DirectPath(f));
    Present(w) && Writable(w) && w.page == f
  }

  ghost predicate KernelOk(mem: Memory, role: Roles) {
    && |role| <= 0x8_0000
    && forall r, f :: IsRoot(role, r) && 0 <= f < |role| ==> DirectMapped(mem, r, f)
  }

  ghost predicate SameUserWalks(mem: Memory, mem': Memory, role: Roles) {
    forall r, p :: IsRoot(role, r) && UserPath(p) ==> Walk(mem', r, p) == Walk(mem, r, p)
  }

  /** What fork leaves in the parent's leaf entry. */
  function ParentLeaf(w: Word): Word {
    if Present(w) then Word(w.page, P_BIT | U_BIT | COW_BIT) else w
  }

  /** What fork puts into the child's leaf entry. */
  function ChildLeaf(w: Word): Word {
    if Present(w) then Word(w.page, P_BIT | U_BIT | COW_BIT) else ZERO
  }

  // --------------------------------------------- what the invariants mean

  /** Frame `t` is a table that the user half of the space of `r` uses on `p`. */
  predicate UsesTable(mem: Memory, r: nat, p: Path, t: nat) {
    var e4 := Entry(mem, r, p.i4);
    var e3 := Entry(mem, e4.page, p.i3);
    var e2 := Entry(mem, e3.page, p.i2);
    || t == r
    || (Present(e4) && t == e4.page)
    || (Present(e4) && Present(e3) && t == e3.page)
    || (Present(e4) && Present(e3) && Present(e2) && t == e2.page)
  }

  /** A frame that one user leaf maps writable is mapped by no other user leaf of
      any space. */
  lemma WritableIsExclusive(mem: Memory, role: Roles, r: nat, p: Path, r': nat, p': Path)
    requires LeafOk(mem, role)
    requires IsRoot(role, r) && UserPath(p) && Present(Walk(mem, r, p)) && Writable(Walk(mem, r, p))
    requires IsRoot(role, r') && UserPath(p') && Present(Walk(mem, r', p'))
    requires Walk(mem, r', p').page == Walk(mem, r, p).page
    ensures r' == r && p' == p
  {
    assert LeafTyped(role, r, p, Walk(mem, r, p));
    assert LeafTyped(role, r', p', Walk(mem, r', p'));
  }

  /** No table is a user page of any space. */
  lemma TablesAreNotPages(mem: Memory, role: Roles, r: nat, p: Path, t: nat, r': nat, p': Path)
    requires TreeOk(mem, role) && LeafOk(mem, role)
    requires IsRoot(role, r) && UserPath(p) && UsesTable(mem, r, p, t)
    requires IsRoot(role, r') && UserPath(p') && Present(Walk(mem, r', p'))
    ensures Walk(mem, r', p').page != t
  {
    WalkTyped(mem, role, r, p);
    assert LeafTyped(role, r', p', Walk(mem, r', p'));
  }

  /** No table belongs to the user halves of two spaces. */
  lemma TablesAreNotShared(mem: Memory, role: Roles, r: nat, p: Path, t: nat, r': nat, p': Path)
    requires TreeOk(mem, role)
    requires IsRoot(role, r) && UserPath(p) && UsesTable(mem, r, p, t)
    requires IsRoot(role, r') && UserPath(p') && UsesTable(mem, r', p', t)
    ensures r == r'
  {
    WalkTyped(mem, role, r, p);
    WalkTyped(mem, role, r', p');
  }

  /** The spaces with the given roots are isolated: a frame that one user leaf maps
      writable is mapped by no other, no table is a user page, and no table belongs to
      two spaces. */
  ghost predicate Isolated(mem: Memory, spaces: seq<nat>) {
    forall i, j, p, p' :: 0 <= i < |spaces| && 0 <= j < |spaces| && UserPath(p) && UserPath(p') ==>
      Apart(mem, spaces[i], p, spaces[j], p')
  }

  ghost predicate Apart(mem: Memory, r: nat, p: Path, r': nat, p': Path) {
    var w, w' := Walk(mem, r, p), Walk(mem, r', p');
    && (Present(w) && Writable(w) && Present(w') && w'.page == w.page ==> r' == r && p' == p)
    && (Present(w') ==> !UsesTable(mem, r, p, w'.page))
    && (forall t :: UsesTable(mem, r, p, t) && UsesTable(mem, r', p', t) ==> r' == r)
  }

  lemma TypedIsIsolated(mem: Memory, role: Roles, spaces: seq<nat>)
    requires TreeOk(mem, role) && LeafOk(mem, role)
    requires forall k :: 0 <= k < |spaces| ==> IsRoot(role, spaces[k])
    ensures Isolated(mem, spaces)
  {
    hide Walk, UsesTable, TreeOk;
    forall i, j, p, p' | 0 <= i < |spaces| && 0 <= j < |spaces| && UserPath(p) && UserPath(p')
      ensures Apart(mem, spaces[i], p, spaces[j], p')
    {
      var r, r' := spaces[i], spaces[j];
      var w, w' := Walk(mem, r, p), Walk(mem, r', p');
      if Present(w) && Writable(w) && Present(w') && w'.page == w.page {
        WritableIsExclusive(mem, role, r, p, r', p');
      }
      if Present(w') && UsesTable(mem, r, p, w'.page) {
        TablesAreNotPages(mem, role, r, p, w'.page, r', p');
      }
      forall t | UsesTable(mem, r, p, t) && UsesTable(mem, r', p', t) ensures r' == r {
        TablesAreNotShared(mem, role, r, p, t, r', p');
      }
    }
  }

  /** What the processor grants: the low bits common to all four entries. */
  function Granted(mem: Memory, r: nat, p: Path): bv12 {
    var e4 := Entry(mem, r, p.i4);
    var e3 := Entry(mem, e4.page, p.i3);
    var e2 := Entry(mem, e3.page, p.i2);
    e4.low & e3.low & e2.low & Walk(mem, r, p).low
  }

  /** The leaf alone decides what a user program may do with a page. */
  lemma LeafDecides(mem: Memory, role: Roles, r: nat, p: Path)
    requires TreeOk(mem, role) && LeafOk(mem, role) && IsRoot(role, r) && UserPath(p)
    requires Present(Walk(mem, r, p))
    ensures Granted(mem, r, p) & (P_BIT | U_BIT) == P_BIT | U_BIT
    ensures Granted(mem, r, p) & W_BIT != 0 <==> Writable(Walk(mem, r, p))
    ensures Writable(Walk(mem, r, p)) || CopyOnWrite(Walk(mem, r, p))
  {
    WalkTyped(mem, role, r, p);
    var e4 := Entry(mem, r, p.i4);
    var e3 := Entry(mem, e4.page, p.i3);
    assert LinkTyped(mem, role, r, p.i4);
    assert LinkTyped(mem, role, e4.page, p.i3);
    assert LinkTyped(mem, role, e3.page, p.i2);
    var e2 := Entry(mem, e3.page, p.i2);
    assert Flags(e4) == 7 && Flags(e3) == 7 && Flags(e2) == 7;
    assert LeafTyped(role, r, p, Walk(mem, r, p));
    AllGranted(e4.low, e3.low, e2.low, Walk(mem, r, p).low);
  }

  lemma AllGranted(a: bv12, b: bv12, c: bv12, d: bv12)
    requires a & 0xF9F == 7 && b & 0xF9F == 7 && c & 0xF9F == 7 && (d & 0xF9F == 7 || d & 0xF9F == 0x105)
    ensures a & b & c & d & (P_BIT | U_BIT) == P_BIT | U_BIT
    ensures a & b & c & d & W_BIT == d & W_BIT
    ensures d & W_BIT != 0 || d & COW_BIT != 0
  { }

  // ---------------------------------------------------- the eager machine

  /** A private memory: the mapped pages and what is in them. */
  type Private = imap<Path, Frame>

  datatype Op =
    | Load(pid: nat, page: Path, off: nat)
    | Store(pid: nat, page: Path, off: nat, value: Word)
    | ForkOf(pid: nat, kernelPages: nat)   // kernel pages taken for the child's records
    | MapNew(pid: nat, page: Path) // a fresh page, all zero, mapped at `page`
    | Spawn                        // a new, empty address space
    | KernelAlloc(pid: nat)        // a kernel page, taken while pid runs
    | Touch(pid: nat, path: Path, level: nat, dirty: bool)  // the processor marks an entry
    | KernelWrite(pid: nat, page: Path, off: nat, value: Word)  // the kernel stores into a user page

  datatype Observation = Value(w: Word) | Fault | Done

  predicate ValidOp(n: nat, op: Op) {
    match op
    case Load(pid, page, off) => pid < n && UserPath(page) && off < ENTRIES
    case Store(pid, page, off, _) => pid < n && UserPath(page) && off < ENTRIES
    case ForkOf(pid, _) => pid < n
    case MapNew(pid, page) => pid < n && UserPath(page)
    case Spawn => true
    case KernelAlloc(pid) => pid < n
    case Touch(pid, path, level, _) => pid < n && ValidPath(path) && 1 <= level <= 4
    case KernelWrite(pid, page, off, _) => pid < n && UserPath(page) && off < ENTRIES
  }

  ghost predicate Pages(m: Private) {
    forall p :: p in m ==> UserPath(p) && |m[p]| == ENTRIES
  }

  /** One step of the machine whose fork copies every page at once. */
  ghost function EagerStep(e: seq<Private>, op: Op): (seq<Private>, Observation)
    requires ValidOp(|e|, op) && forall k :: 0 <= k < |e| ==> Pages(e[k])
  {
    match op
    case Load(pid, page, off) =>
      assert Pages(e[pid]);
      (e, if page in e[pid] then Value(e[pid][page][off]) else Fault)
    case Store(pid, page, off, w) =>
      EagerStore(e, pid, page, off, w)
    case ForkOf(pid, _) =>
      (e + [e[pid]], Done)
    case MapNew(pid, page) =>
      (e[pid := e[pid][page := ZeroFrame()]], Done)
    case Spawn =>
      (e + [imap[]], Done)
    case KernelAlloc(_) =>
      (e, Done)
    case Touch(_, _, _, _) =>
      (e, Done)
    case KernelWrite(pid, page, off, w) =>
      EagerStore(e, pid, page, off, w)
  }

  ghost function EagerStore(e: seq<Private>, pid: nat, page: Path, off: nat, w: Word): (seq<Private>, Observation)
    requires pid < |e| && off < ENTRIES && Pages(e[pid])
  {
    if page in e[pid] then (e[pid := e[pid][page := e[pid][page][off := w]]], Done) else (e, Fault)
  }

  /** For each process, the pages that it has mapped or written since it was last parent or
      child of a fork. */
  type OwnPages = seq<iset<Path>>

  ghost function OwnAfter(e: seq<Private>, own: OwnPages, op: Op): OwnPages
    requires |own| == |e| && ValidOp(|e|, op)
  {
    match op
    case Store(pid, page, _, _) => if page in e[pid] then own[pid := own[pid] + iset{page}] else own
    case MapNew(pid, page) => own[pid := own[pid] + iset{page}]
    case ForkOf(pid, _) => own[pid := iset{}] + [iset{}]
    case Spawn => own + [iset{}]
    case _ => own
  }

  /** The kernel stores where no other page can lie on the frame, or nothing new, or
      nothing at all. */
  ghost predicate SafeOp(e: seq<Private>, own: OwnPages, op: Op)
    requires |own| == |e| && ValidOp(|e|, op) && forall k :: 0 <= k < |e| ==> Pages(e[k])
  {
    op.KernelWrite? ==>
      var mine := e[op.pid];
      op.page in own[op.pid] || op.page !in mine || (assert Pages(mine); mine[op.page][op.off] == op.value)
  }

  ghost predicate SafeRun(e: seq<Private>, own: OwnPages, ops: seq<Op>)
    requires |own| == |e| && ValidOps(|e|, ops) && forall k :: 0 <= k < |e| ==> Pages(e[k])
    decreases |ops|
  {
    ops == [] ||
    (EagerStepPages(e, ops[0]);
     && SafeOp(e, own, ops[0])
     && SafeRun(EagerStep(e, ops[0]).0, OwnAfter(e, own, ops[0]), ops[1..]))
  }

  /** Without kernel stores every run is safe. */
  lemma {:induction false} WithoutKernelWrites(e: seq<Private>, own: OwnPages, ops: seq<Op>)
    requires |own| == |e| && ValidOps(|e|, ops) && forall k :: 0 <= k < |e| ==> Pages(e[k])
    requires forall i :: 0 <= i < |ops| ==> !ops[i].KernelWrite?
    ensures SafeRun(e, own, ops)
    decreases |ops|
  {
    if ops == [] {
    } else {
      EagerStepPages(e, ops[0]);
      WithoutKernelWrites(EagerStep(e, ops[0]).0, OwnAfter(e, own, ops[0]), ops[1..]);
    }
  }

  /** The number of processes after one step. */
  function Population(n: nat, op: Op): nat {
    if op.ForkOf? || op.Spawn? then n + 1 else n
  }

  predicate ValidOps(n: nat, ops: seq<Op>)
    decreases |ops|
  {
    ops == [] || (ValidOp(n, ops[0]) && ValidOps(Population(n, ops[0]), ops[1..]))
  }

  /** The final memories and everything observed on the way. */
  ghost function EagerRun(e: seq<Private>, ops: seq<Op>): (seq<Private>, seq<Observation>)
    requires ValidOps(|e|, ops) && forall k :: 0 <= k < |e| ==> Pages(e[k])
    decreases |ops|
  {
    if ops == [] then (e, []) else
    EagerStepPages(e, ops[0]);
    var (e1, o) := EagerStep(e, ops[0]);
    var (e2, os) := EagerRun(e1, ops[1..]);
    (e2, [o] + os)
  }

  lemma EagerStepPages(e: seq<Private>, op: Op)
    requires ValidOp(|e|, op) && forall k :: 0 <= k < |e| ==> Pages(e[k])
    ensures forall k :: 0 <= k < |EagerStep(e, op).0| ==> Pages(EagerStep(e, op).0[k])
    ensures |EagerStep(e, op).0| == Population(|e|, op)
  { }

  // --------------------------------------------- what such memories promise

  /** A store is seen by loads of its word by its process, and by no others. */
  lemma StoreThenLoad(e: seq<Private>, pid: nat, p: Path, off: nat, w: Word, pid': nat, p': Path, off': nat)
    requires forall k :: 0 <= k < |e| ==> Pages(e[k])
    requires pid < |e| && UserPath(p) && off < ENTRIES && p in e[pid]
    requires pid' < |e| && UserPath(p') && off' < ENTRIES
    ensures var e' := EagerStep(e, Store(pid, p, off, w)).0;
            && |e'| == |e| && (forall k :: 0 <= k < |e'| ==> Pages(e'[k]))
            && EagerStep(e', Load(pid', p', off')).1 ==
               if pid' == pid && p' == p && off' == off then Value(w) else EagerStep(e, Load(pid', p', off')).1
  {
    EagerStepPages(e, Store(pid, p, off, w));
  }

  /** A child loads what its parent loads, and all others load what they did. */
  lemma ForkThenLoad(e: seq<Private>, pid: nat, n: nat, k: nat, p: Path, off: nat)
    requires forall k :: 0 <= k < |e| ==> Pages(e[k])
    requires pid < |e| && k <= |e| && UserPath(p) && off < ENTRIES
    ensures var e' := EagerStep(e, ForkOf(pid, n)).0;
            && |e'| == |e| + 1 && (forall k :: 0 <= k < |e'| ==> Pages(e'[k]))
            && EagerStep(e', Load(k, p, off)).1 == EagerStep(e, Load(if k < |e| then k else pid, p, off)).1
  {
    EagerStepPages(e, ForkOf(pid, n));
  }

  /** A new page reads as zero in its space, a new space has none, and nothing else changes. */
  lemma MapThenLoad(e: seq<Private>, pid: nat, q: Path, k: nat, p: Path, off: nat)
    requires forall k :: 0 <= k < |e| ==> Pages(e[k])
    requires pid < |e| && UserPath(q) && k < |e| && UserPath(p) && off < ENTRIES
    ensures var e', s := EagerStep(e, MapNew(pid, q)).0, EagerStep(e, Spawn).0;
            && |e'| == |e| && (forall k :: 0 <= k < |e'| ==> Pages(e'[k]))
            && |s| == |e| + 1 && (forall k :: 0 <= k < |s| ==> Pages(s[k]))
            && EagerStep(e', Load(k, p, off)).1 ==
               (if k == pid && p == q then Value(Word(0, 0)) else EagerStep(e, Load(k, p, off)).1)
            && EagerStep(s, Load(k, p, off)).1 == EagerStep(e, Load(k, p, off)).1
            && EagerStep(s, Load(|e|, p, off)).1 == Fault
  {
    EagerStepPages(e, MapNew(pid, q));
    EagerStepPages(e, Spawn);
  }

  // ------------------------------------------------------------ refinement

  /** What user `r` sees under page `p` is what its private memory holds there. */
  ghost predicate SeesPage(mem: Memory, r: nat, e: Private, p: Path) {
    && (Present(Walk(mem, r, p)) <==> p in e)
    && (p in e ==> Walk(mem, r, p).page < |mem| && mem[Walk(mem, r, p).page] == e[p])
  }

  ghost predicate Sees(mem: Memory, r: nat, e: Private) {
    && Pages(e)
    && forall p :: UserPath(p) ==> SeesPage(mem, r, e, p)
  }

  /** Process `k` runs in the space of root spaces[k] and sees memory e[k]. */
  ghost predicate Refines(mem: Memory, role: Roles, spaces: seq<nat>, e: seq<Private>) {
    && |spaces| == |e|
    && (forall k :: 0 <= k < |e| ==> IsRoot(role, spaces[k]) && Sees(mem, spaces[k], e[k]))
    && (forall i, j :: 0 <= i < j < |e| ==> spaces[i] != spaces[j])
  }

  // ------------------------------------------------- writing a data frame

  /** Writing a frame that is no table changes no translation. */
  lemma DataWrite(mem: Memory, role: Roles, f: nat, content: Frame)
    requires TreeOk(mem, role) && f < |role| && !role[f].Table? && !role[f].Free? && |content| == ENTRIES
    ensures TreeOk(mem[f := content], role)
    ensures forall r, p :: IsRoot(role, r) && ValidPath(p) ==> Walk(mem[f := content], r, p) == Walk(mem, r, p)
    ensures SameMissing(mem, mem[f := content], role)
  {
    var mem' := mem[f := content];
    forall g, i | 0 <= g < |role| && 0 <= i < ENTRIES ensures LinkTyped(mem', role, g, i) {
      assert LinkTyped(mem, role, g, i);
      assert g != f ==> Entry(mem', g, i) == Entry(mem, g, i);
    }
    forall r, p | IsRoot(role, r) && ValidPath(p) ensures Walk(mem', r, p) == Walk(mem, r, p) {
      WalkTyped(mem, role, r, p);
    }
    forall r, p | IsRoot(role, r) && UserPath(p) ensures MissingTables(mem', r, p) == MissingTables(mem, r, p) {
      WalkTyped(mem, role, r, p);
    }
  }

  // -------------------------------------------------- mapping a new frame

  /** Page `p` of space `r` is moved to the frame `f`, which was free and now holds
      `content`; no other user page moves or changes. */
  ghost predicate Remapped(mem: Memory, role: Roles, mem': Memory, role': Roles,
                           r: nat, p: Path, f: nat, content: Frame) {
    && |mem'| == |mem| == |role| == |role'|
    && f < |role| && role[f].Free? && role'[f] == Owned(r, p) && mem'[f] == content
    && (forall g :: 0 <= g < |role| && !role[g].Free? ==> role'[g] == role[g])
    && (forall q :: IsRoot(role', q) <==> IsRoot(role, q))
    && SameContents(mem, mem', role)
    && Walk(mem', r, p).page == f && Flags(Walk(mem', r, p)) == 7
    && (forall q, v :: IsRoot(role, q) && UserPath(v) && (q != r || v != p) ==> Walk(mem', q, v) == Walk(mem, q, v))
  }

  /** The owner of the moved page sees the new content there; nobody sees anything else. */
  lemma RemapRefines(mem: Memory, role: Roles, mem': Memory, role': Roles, spaces: seq<nat>, e: seq<Private>,
                     pid: nat, p: Path, f: nat, content: Frame)
    requires LeafOk(mem, role) && Refines(mem, role, spaces, e)
    requires pid < |e| && UserPath(p) && |content| == ENTRIES
    requires Remapped(mem, role, mem', role', spaces[pid], p, f, content)
    ensures Refines(mem', role', spaces, e[pid := e[pid][p := content]])
  {
    var e' := e[pid := e[pid][p := content]];
    forall k | 0 <= k < |e| ensures Sees(mem', spaces[k], e'[k]) {
      forall v | UserPath(v) ensures SeesPage(mem', spaces[k], e'[k], v) {
        assert SeesPage(mem, spaces[k], e[k], v);
        if k != pid || v != p {
          var w := Walk(mem, spaces[k], v);
          if Present(w) { assert LeafTyped(role, spaces[k], v, w); }
        }
      }
    }
  }

  // ------------------------------------------------------------------ fork

  /** Space `c` is new and shares every page of space `r` copy-on-write. */
  ghost predicate Forked(mem: Memory, role: Roles, mem': Memory, role': Roles, r: nat, c: nat) {
    && |mem'| == |mem| == |role| == |role'|
    && IsRoot(role, r) && c < |role| && role[c].Free?
    && (forall q :: IsRoot(role', q) <==> IsRoot(role, q) || q == c)
    && (forall p :: UserPath(p) ==>
          && Walk(mem', r, p) == ParentLeaf(Walk(mem, r, p))
          && Walk(mem', c, p) == ChildLeaf(Walk(mem, r, p)))
    && (forall q, p :: IsRoot(role, q) && q != r && UserPath(p) ==> Walk(mem', q, p) == Walk(mem, q, p))
    && SameContents(mem, mem', role)
    && (forall f :: 0 <= f < |role| && role[f].Owned? ==>
          role'[f] == if role[f].root == r then Shared else role[f])
    && (forall f :: 0 <= f < |role| && role[f].Shared? ==> role'[f].Shared?)
  }

  lemma ForkKeepsLeaves(mem: Memory, role: Roles, mem': Memory, role': Roles, r: nat, c: nat)
    requires LeafOk(mem, role) && Forked(mem, role, mem', role', r, c)
    ensures LeafOk(mem', role')
  {
    forall q, p | IsRoot(role', q) && UserPath(p) && Present(Walk(mem', q, p))
      ensures LeafTyped(role', q, p, Walk(mem', q, p))
    {
      if q == r || q == c {
        assert LeafTyped(role, r, p, Walk(mem, r, p));
      } else {
        assert LeafTyped(role, q, p, Walk(mem, q, p));
      }
    }
  }

  /** Parent and child both see, under every page, what the parent saw. */
  lemma ForkPage(mem: Memory, role: Roles, mem': Memory, role': Roles, r: nat, c: nat, e: Private, p: Path)
    requires LeafOk(mem, role) && Forked(mem, role, mem', role', r, c)
    requires UserPath(p) && SeesPage(mem, r, e, p)
    ensures SeesPage(mem', r, e, p) && SeesPage(mem', c, e, p)
  {
    var w := Walk(mem, r, p);
    if Present(w) { assert LeafTyped(role, r, p, w); }
  }

  lemma BystanderPage(mem: Memory, role: Roles, mem': Memory, role': Roles, r: nat, c: nat, q: nat, e: Private, p: Path)
    requires LeafOk(mem, role) && Forked(mem, role, mem', role', r, c)
    requires IsRoot(role, q) && q != r && UserPath(p) && SeesPage(mem, q, e, p)
    ensures SeesPage(mem', q, e, p)
  {
    var w := Walk(mem, q, p);
    if Present(w) { assert LeafTyped(role, q, p, w); }
  }

  /** Sharing looks like copying. */
  lemma ForkRefines(mem: Memory, role: Roles, mem': Memory, role': Roles,
                    spaces: seq<nat>, e: seq<Private>, pid: nat, c: nat)
    requires LeafOk(mem, role) && Refines(mem, role, spaces, e) && pid < |e|
    requires Forked(mem, role, mem', role', spaces[pid], c)
    ensures Refines(mem', role', spaces + [c], e + [e[pid]])
  {
    var spaces', e' := spaces + [c], e + [e[pid]];
    forall k | 0 <= k < |e'| ensures Sees(mem', spaces'[k], e'[k]) {
      var from := if k < |e| then k else pid;
      assert Sees(mem, spaces[from], e[from]);
      forall p | UserPath(p) ensures SeesPage(mem', spaces'[k], e'[k], p) {
        if spaces[from] == spaces[pid] {
          ForkPage(mem, role, mem', role', spaces[pid], c, e[from], p);
        } else {
          BystanderPage(mem, role, mem', role', spaces[pid], c, spaces[from], e[from], p);
        }
      }
    }
  }

  // ----------------------------------------------------- kernel-only steps

  /** The kernel takes or writes frames of its own; it may add an empty space. */
  ghost predicate KernelOnly(mem: Memory, role: Roles, mem': Memory, role': Roles) {
    && |mem'| == |mem| == |role| == |role'|
    && (forall q :: IsRoot(role, q) ==> IsRoot(role', q))
    && (forall q, p :: IsRoot(role', q) && !IsRoot(role, q) && UserPath(p) ==> Walk(mem', q, p) == ZERO)
    && SameUserWalks(mem, mem', role)
    && (forall f :: 0 <= f < |role| && (role[f].Owned? || role[f].Shared?) ==> role'[f] == role[f] && mem'[f] == mem[f])
  }

  lemma KernelOnlyKeepsLeaves(mem: Memory, role: Roles, mem': Memory, role': Roles)
    requires LeafOk(mem, role) && KernelOnly(mem, role, mem', role')
    ensures LeafOk(mem', role')
  {
    forall q, p | IsRoot(role', q) && UserPath(p) && Present(Walk(mem', q, p))
      ensures LeafTyped(role', q, p, Walk(mem', q, p))
    {
      assert IsRoot(role, q);
      assert LeafTyped(role, q, p, Walk(mem, q, p));
    }
  }

  lemma KernelOnlyRefines(mem: Memory, role: Roles, mem': Memory, role': Roles, spaces: seq<nat>, e: seq<Private>)
    requires LeafOk(mem, role) && Refines(mem, role, spaces, e) && KernelOnly(mem, role, mem', role')
    ensures Refines(mem', role', spaces, e)
    ensures forall c :: IsRoot(role', c) && !IsRoot(role, c) ==> Refines(mem', role', spaces + [c], e + [imap[]])
  {
    forall k | 0 <= k < |e| ensures Sees(mem', spaces[k], e[k]) {
      forall p | UserPath(p) ensures SeesPage(mem', spaces[k], e[k], p) {
        assert SeesPage(mem, spaces[k], e[k], p);
        var w := Walk(mem, spaces[k], p);
        if Present(w) { assert LeafTyped(role, spaces[k], p, w); }
      }
    }
    forall c | IsRoot(role', c) && !IsRoot(role, c) ensures Refines(mem', role', spaces + [c], e + [imap[]]) {
      var none: Private := imap[];
      assert Sees(mem', c, none);
    }
  }

  // ------------------------------------------------- the processor's marks

  lemma MarksKeepLeaves(mem: Memory, role: Roles, mem': Memory)
    requires LeafOk(mem, role) && SameWalksButMarks(mem, mem', role)
    ensures LeafOk(mem', role)
  {
    forall q, p | IsRoot(role, q) && UserPath(p) && Present(Walk(mem', q, p))
      ensures LeafTyped(role, q, p, Walk(mem', q, p))
    {
      FlagsDecide(Walk(mem, q, p), Walk(mem', q, p));
      assert LeafTyped(role, q, p, Walk(mem, q, p));
    }
  }

  lemma MarksKeepKernel(mem: Memory, role: Roles, mem': Memory)
    requires KernelOk(mem, role) && SameWalksButMarks(mem, mem', role)
    ensures KernelOk(mem', role)
  {
    forall q, f | IsRoot(role, q) && 0 <= f < |role| ensures DirectMapped(mem', q, f) {
      assert DirectMapped(mem, q, f) && ValidPath(DirectPath(f));
      FlagsDecide(Walk(mem, q, DirectPath(f)), Walk(mem', q, DirectPath(f)));
    }
  }

  /** Accessed and dirty bits are invisible to programs. */
  lemma MarksRefine(mem: Memory, role: Roles, mem': Memory, spaces: seq<nat>, e: seq<Private>)
    requires LeafOk(mem, role) && Refines(mem, role, spaces, e)
    requires SameWalksButMarks(mem, mem', role) && SameContents(mem, mem', role)
    ensures Refines(mem', role, spaces, e)
  {
    forall k | 0 <= k < |e| ensures Sees(mem', spaces[k], e[k]) {
      forall p | UserPath(p) ensures SeesPage(mem', spaces[k], e[k], p) {
        var w := Walk(mem, spaces[k], p);
        assert SeesPage(mem, spaces[k], e[k], p);
        FlagsDecide(w, Walk(mem', spaces[k], p));
        if Present(w) { assert LeafTyped(role, spaces[k], p, w); }
      }
    }
  }

  // ------------------------------------------------- pages that stay writable

  predicate CanWrite(mem: Memory, r: nat, p: Path) { Present(Walk(mem, r, p)) && Writable(Walk(mem, r, p)) }

  ghost predicate NoneWritable(mem: Memory, r: nat) {
    forall p :: UserPath(p) ==> !CanWrite(mem, r, p)
  }

  /** The pages of `own` are those that are writable; no other page lies on their frames. */
  ghost predicate Owns(mem: Memory, spaces: seq<nat>, own: OwnPages) {
    |own| == |spaces| &&
    forall k, p :: 0 <= k < |own| ==> (p in own[k] <==> UserPath(p) && CanWrite(mem, spaces[k], p))
  }

  /** The same pages are writable in all spaces but that of `r`. */
  ghost predicate SameWritable(mem: Memory, role: Roles, mem': Memory, r: nat) {
    forall q, p :: IsRoot(role, q) && q != r && UserPath(p) ==> CanWrite(mem', q, p) == CanWrite(mem, q, p)
  }

  /** The same pages are writable but for page `p` of the space of `r`, which is so now. */
  ghost predicate OneMoreWritable(mem: Memory, role: Roles, mem': Memory, r: nat, p: Path) {
    && CanWrite(mem', r, p)
    && forall q, v :: IsRoot(role, q) && UserPath(v) && (q != r || v != p) ==>
         CanWrite(mem', q, v) == CanWrite(mem, q, v)
  }

  lemma RemapMakesWritable(mem: Memory, role: Roles, mem': Memory, role': Roles,
                           r: nat, p: Path, f: nat, content: Frame)
    requires Remapped(mem, role, mem', role', r, p, f, content)
    ensures OneMoreWritable(mem, role, mem', r, p)
  {
    hide Walk;
  }

  lemma ForkLeavesWritable(mem: Memory, role: Roles, mem': Memory, role': Roles, r: nat, c: nat)
    requires Forked(mem, role, mem', role', r, c)
    ensures SameWritable(mem, role, mem', r) && NoneWritable(mem', r) && NoneWritable(mem', c)
  {
    hide Walk;
    assert forall w: Word :: !Writable(ChildLeaf(w)) && (Present(ParentLeaf(w)) ==> !Writable(ParentLeaf(w)));
  }

  lemma WalksLeaveWritable(mem: Memory, mem': Memory, role: Roles, r: nat)
    requires SameUserWalks(mem, mem', role)
    ensures SameWritable(mem, role, mem', r)
    ensures forall q :: IsRoot(role, q) && NoneWritable(mem, q) ==> NoneWritable(mem', q)
  {
    hide Walk;
  }

  lemma MarksLeaveWritable(mem: Memory, mem': Memory, role: Roles)
    requires SameWalksButMarks(mem, mem', role)
    ensures SameWritable(mem, role, mem', |role|)
  {
    hide Walk;
    forall q, p | IsRoot(role, q) && UserPath(p) ensures CanWrite(mem', q, p) == CanWrite(mem, q, p) {
      FlagsDecide(Walk(mem, q, p), Walk(mem', q, p));
    }
  }

  lemma SameWritableTwice(mem0: Memory, role0: Roles, mem1: Memory, role1: Roles, mem2: Memory, r: nat)
    requires SameWritable(mem0, role0, mem1, r) && SameWritable(mem1, role1, mem2, r)
    requires forall q :: IsRoot(role0, q) ==> IsRoot(role1, q)
    ensures SameWritable(mem0, role0, mem2, r)
  {
    hide CanWrite;
  }

  lemma OwnsNothing(mem: Memory)
    ensures Owns(mem, [], [])
  { }

  lemma OwnsStill(mem: Memory, role: Roles, mem': Memory, spaces: seq<nat>, own: OwnPages)
    requires Owns(mem, spaces, own) && SameWritable(mem, role, mem', |role|)
    requires forall k :: 0 <= k < |spaces| ==> IsRoot(role, spaces[k])
    ensures Owns(mem', spaces, own)
  {
    hide CanWrite;
  }

  lemma OwnsOneMore(mem: Memory, role: Roles, mem': Memory, spaces: seq<nat>, own: OwnPages, pid: nat, p: Path)
    requires Owns(mem, spaces, own) && pid < |own| && UserPath(p)
    requires OneMoreWritable(mem, role, mem', spaces[pid], p)
    requires forall k :: 0 <= k < |spaces| ==> IsRoot(role, spaces[k])
    requires forall i, j :: 0 <= i < j < |spaces| ==> spaces[i] != spaces[j]
    ensures Owns(mem', spaces, own[pid := own[pid] + iset{p}])
  {
    hide CanWrite;
    var own' := own[pid := own[pid] + iset{p}];
    forall k, v | 0 <= k < |own'| ensures v in own'[k] <==> UserPath(v) && CanWrite(mem', spaces[k], v) {
      assert v in own[k] <==> UserPath(v) && CanWrite(mem, spaces[k], v);
      assert k != pid ==> spaces[k] != spaces[pid];
    }
  }

  /** After a fork parent and child own nothing. */
  lemma OwnsAfterFork(mem: Memory, role: Roles, mem': Memory, spaces: seq<nat>, own: OwnPages, pid: nat, c: nat)
    requires Owns(mem, spaces, own) && pid < |own| && SameWritable(mem, role, mem', spaces[pid])
    requires NoneWritable(mem', spaces[pid]) && NoneWritable(mem', c)
    requires forall k :: 0 <= k < |spaces| ==> IsRoot(role, spaces[k])
    requires forall i, j :: 0 <= i < j < |spaces| ==> spaces[i] != spaces[j]
    ensures Owns(mem', spaces + [c], own[pid := iset{}] + [iset{}])
  {
    hide CanWrite;
    var spaces', own' := spaces + [c], own[pid := iset{}] + [iset{}];
    forall k, v | 0 <= k < |own'| ensures v in own'[k] <==> UserPath(v) && CanWrite(mem', spaces'[k], v) {
      if k < |own| {
        assert v in own[k] <==> UserPath(v) && CanWrite(mem, spaces[k], v);
        assert k != pid ==> spaces[k] != spaces[pid];
      }
    }
  }

  lemma OwnsAfterSpawn(mem: Memory, spaces: seq<nat>, own: OwnPages, c: nat)
    requires Owns(mem, spaces, own) && NoneWritable(mem, c)
    ensures Owns(mem, spaces + [c], own + [iset{}])
  {
    hide CanWrite;
  }

  // ----------------------------------------- stores that ignore the write bit

  /** Page `v` of space `q` lies on frame `f`. */
  ghost predicate LiesOn(mem: Memory, q: nat, v: Path, f: nat) {
    Present(Walk(mem, q, v)) && Walk(mem, q, v).page == f
  }

  /** No other page of any of the spaces lies on the frame of page `p` of space `r`. */
  ghost predicate SoleMapping(mem: Memory, spaces: seq<nat>, r: nat, p: Path) {
    forall k, v :: 0 <= k < |spaces| && UserPath(v) && LiesOn(mem, spaces[k], v, Walk(mem, r, p).page) ==>
      spaces[k] == r && v == p
  }

  /** Frame `f` with new content, and the private memory of `pid` changed likewise. */
  lemma FrameChangeRefines(mem: Memory, mem': Memory, role: Roles, spaces: seq<nat>, e: seq<Private>,
                           pid: nat, page: Path, content: Frame)
    requires Refines(mem, role, spaces, e) && pid < |e| && UserPath(page) && |content| == ENTRIES
    requires LiesOn(mem, spaces[pid], page, Walk(mem, spaces[pid], page).page)
    requires Walk(mem, spaces[pid], page).page < |mem| && mem' == mem[Walk(mem, spaces[pid], page).page := content]
    requires forall k, p :: 0 <= k < |spaces| && UserPath(p) ==> Walk(mem', spaces[k], p) == Walk(mem, spaces[k], p)
    requires SoleMapping(mem, spaces, spaces[pid], page) || content == mem[Walk(mem, spaces[pid], page).page]
    ensures Refines(mem', role, spaces, e[pid := e[pid][page := content]])
  {
    hide Walk;
    var e' := e[pid := e[pid][page := content]];
    forall k | 0 <= k < |e| ensures Sees(mem', spaces[k], e'[k]) {
      assert Sees(mem, spaces[k], e[k]) && Sees(mem, spaces[pid], e[pid]);
      forall p | UserPath(p) ensures SeesPage(mem', spaces[k], e'[k], p) {
        assert SeesPage(mem, spaces[k], e[k], p) && SeesPage(mem, spaces[pid], e[pid], page);
        var shares := LiesOn(mem, spaces[k], p, Walk(mem, spaces[pid], page).page);
      }
    }
  }

  /** Another page on the same frame shows the change. */
  lemma FrameChangeShows(mem: Memory, mem': Memory, role: Roles, spaces: seq<nat>, e: seq<Private>,
                         pid: nat, page: Path, content: Frame, k: nat, v: Path)
    requires Refines(mem, role, spaces, e) && pid < |e| && UserPath(page) && k < |spaces| && UserPath(v)
    requires Walk(mem, spaces[pid], page).page < |mem| && mem' == mem[Walk(mem, spaces[pid], page).page := content]
    requires Walk(mem', spaces[k], v) == Walk(mem, spaces[k], v)
    requires content != mem[Walk(mem, spaces[pid], page).page]
    requires LiesOn(mem, spaces[k], v, Walk(mem, spaces[pid], page).page) && !(spaces[k] == spaces[pid] && v == page)
    ensures !Refines(mem', role, spaces, e[pid := e[pid][page := content]])
  {
    hide Walk;
    var e' := e[pid := e[pid][page := content]];
    assert Sees(mem, spaces[k], e[k]) && SeesPage(mem, spaces[k], e[k], v);
    assert !SeesPage(mem', spaces[k], e'[k], v);
  }

  /** A store by the kernel through a user mapping, write bit or not, does what a store
      to a private memory does if and only if no other page lies on the frame or the
      word stored is the one that was there. */
  lemma KernelStoreRefinesIff(mem: Memory, role: Roles, spaces: seq<nat>, e: seq<Private>,
                              pid: nat, page: Path, off: nat, w: Word)
    requires TreeOk(mem, role) && LeafOk(mem, role) && Refines(mem, role, spaces, e)
    requires pid < |e| && UserPath(page) && off < ENTRIES && Present(Walk(mem, spaces[pid], page))
    ensures var f := Walk(mem, spaces[pid], page).page;
            && f < |mem| && off < |mem[f]| && page in e[pid] && e[pid][page] == mem[f]
            && (Refines(SetEntry(mem, f, off, w), role, spaces, e[pid := e[pid][page := e[pid][page][off := w]]])
                <==> SoleMapping(mem, spaces, spaces[pid], page) || mem[f][off] == w)
  {
    var r := spaces[pid];
    var f := Walk(mem, r, page).page;
    assert Sees(mem, r, e[pid]) && SeesPage(mem, r, e[pid], page);
    assert LeafTyped(role, r, page, Walk(mem, r, page));
    var content := mem[f][off := w];
    DataWrite(mem, role, f, content);
    var mem' := mem[f := content];
    hide Walk, TreeOk, LeafOk, Refines;
    if mem[f][off] == w {
      assert content == mem[f];
      FrameChangeRefines(mem, mem', role, spaces, e, pid, page, content);
    } else if SoleMapping(mem, spaces, r, page) {
      FrameChangeRefines(mem, mem', role, spaces, e, pid, page, content);
    } else {
      var k, v :| 0 <= k < |spaces| && UserPath(v) && LiesOn(mem, spaces[k], v, f) && !(spaces[k] == r && v == page);
      assert content[off] == w;
      FrameChangeShows(mem, mem', role, spaces, e, pid, page, content, k, v);
    }
  }

  /** A writable page is alone on its frame, so that a store through it is a store to the
      private memory of its process. */
  lemma WritableIsSole(mem: Memory, role: Roles, spaces: seq<nat>, e: seq<Private>, pid: nat, page: Path)
    requires LeafOk(mem, role) && Refines(mem, role, spaces, e) && pid < |e| && UserPath(page)
    requires Present(Walk(mem, spaces[pid], page)) && Writable(Walk(mem, spaces[pid], page))
    ensures SoleMapping(mem, spaces, spaces[pid], page)
  {
    var r := spaces[pid];
    forall k, v | 0 <= k < |spaces| && UserPath(v) && LiesOn(mem, spaces[k], v, Walk(mem, r, page).page)
      ensures spaces[k] == r && v == page
    {
      WritableIsExclusive(mem, role, r, page, spaces[k], v);
    }
  }
}
