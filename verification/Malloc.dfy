/** The user heap allocator (libc/malloc.c) over the break of mallocSyscall
    (sys/syscall.c) and the demand-paged heap (sys/page.c).  Blocks and the records about
    them lie in the same bytes. */
module Malloc {
  import opened Integers
  import opened Paging
  import opened Demand = Heap

  /** Memory by address; a byte never written reads as zero. */
  type Bytes = map<nat, Byte>

  const RECORD_SIZE: nat := 32

  function At(mem: Bytes, a: nat): Byte { if a in mem then mem[a] else 0 }

  // ---------------------------------------------- little-endian numbers

  function Slice(mem: Bytes, a: nat, n: nat): (s: seq<Byte>)
    ensures |s| == n
  {
    seq<Byte>(n, i requires 0 <= i < n => At(mem, a + i))
  }

  function ReadLE(mem: Bytes, a: nat, n: nat): nat { FromBytes(Slice(mem, a, n)) }

  function WriteLE(mem: Bytes, a: nat, n: nat, v: nat): Bytes {
    if n == 0 then mem else WriteLE(mem, a, n - 1, v)[a + n - 1 := Digit(v, n - 1)]
  }

  /** A store changes its own bytes only. */
  lemma {:induction false} WriteFrame(mem: Bytes, a: nat, n: nat, v: nat, b: nat)
    ensures At(WriteLE(mem, a, n, v), b) == if a <= b < a + n then Digit(v, b - a) else At(mem, b)
  {
    if n == 0 {
    } else {
      WriteFrame(mem, a, n - 1, v, b);
    }
  }

  /** What is stored is read back. */
  lemma ReadWrite(mem: Bytes, a: nat, n: nat, v: nat)
    requires v < Pow256(n)
    ensures ReadLE(WriteLE(mem, a, n, v), a, n) == v
  {
    var s := Slice(WriteLE(mem, a, n, v), a, n);
    forall k | 0 <= k < n ensures s[k] == ToBytes(v, n)[k] { WriteFrame(mem, a, n, v, a + k); }
    assert s == ToBytes(v, n);
    BytesBack(v, n);
  }

  /** A number is unchanged when its bytes are. */
  lemma ReadSame(mem: Bytes, mem': Bytes, a: nat, n: nat)
    requires forall b :: a <= b < a + n ==> At(mem', b) == At(mem, b)
    ensures ReadLE(mem', a, n) == ReadLE(mem, a, n)
  {
    assert Slice(mem', a, n) == Slice(mem, a, n);
  }

  lemma WriteKeeps(mem: Bytes, a: nat, n: nat, v: nat, b: nat, n': nat)
    requires b + n' <= a || a + n <= b
    ensures ReadLE(WriteLE(mem, a, n, v), b, n') == ReadLE(mem, b, n')
  {
    hide ReadLE, WriteLE, At;
    var mem' := WriteLE(mem, a, n, v);
    forall c | b <= c < b + n' ensures At(mem', c) == At(mem, c) { WriteFrame(mem, a, n, v, c); }
    ReadSame(mem, mem', b, n');
  }

  // ------------------------------------------------------- the block list

  /** A block, with its record behind it; `want` is what the last malloc asked for. */
  datatype Block = Block(start: nat, size: nat, live: bool, want: nat)

  function RecordOf(b: Block): nat { b.start + b.size }

  /** Where block and record end. */
  function End(b: Block): nat { b.start + b.size + RECORD_SIZE }

  /** Blocks with their records lie one behind the other between `base` and the break.
      Between them there may be room that other callers of sb_malloc have taken. */
  ghost predicate Placed(bs: seq<Block>, base: nat, brk: nat) {
    && base <= brk
    && (forall k :: 0 <= k < |bs| ==> base <= bs[k].start && End(bs[k]) <= brk)
    && (forall j, k :: 0 <= j < k < |bs| ==> End(bs[j]) <= bs[k].start)
  }

  predicate InBlock(b: Block, a: nat) { b.start <= a < b.start + b.size }

  predicate InRecord(b: Block, a: nat) { RecordOf(b) <= a < RecordOf(b) + RECORD_SIZE }

  /** Blocks never meet each other, nor any record. */
  lemma BlocksDisjoint(bs: seq<Block>, base: nat, brk: nat, j: nat, k: nat, a: nat)
    requires Placed(bs, base, brk) && j < |bs| && k < |bs|
    ensures j != k && InBlock(bs[j], a) ==> !InBlock(bs[k], a)
    ensures InBlock(bs[j], a) ==> !InRecord(bs[k], a)
    ensures j != k && InRecord(bs[j], a) ==> !InRecord(bs[k], a)
    ensures InBlock(bs[j], a) || InRecord(bs[j], a) ==> base <= a < brk
    ensures j != k ==> RecordOf(bs[j]) != RecordOf(bs[k])
  {
    if j < k {
      assert End(bs[j]) <= bs[k].start;
    } else if k < j {
      assert End(bs[k]) <= bs[j].start;
    }
  }

  /** A block at the same place. */
  lemma Replaced(bs: seq<Block>, base: nat, brk: nat, k: nat, b: Block)
    requires Placed(bs, base, brk) && k < |bs| && b.start == bs[k].start && b.size == bs[k].size
    ensures Placed(bs[k := b], base, brk)
  {
    var cs := bs[k := b];
    assert forall j :: 0 <= j < |bs| ==> cs[j].start == bs[j].start && End(cs[j]) == End(bs[j]);
  }

  // --------------------------------------------------- what the code promises

  /** A freed block that malloc will give out again. */
  predicate Fits(b: Block, size: nat) { !b.live && size < b.size < 10000 }

  /** The first fitting block from `k` on that is not the tail, or |bs|. */
  function FirstFit(bs: seq<Block>, size: nat, k: nat): (r: nat)
    requires k <= |bs|
    ensures k <= r <= |bs|
    ensures r < |bs| ==> r + 1 < |bs| && Fits(bs[r], size)
    ensures forall j :: k <= j < r && j + 1 < |bs| ==> !Fits(bs[j], size)
    decreases |bs| - k
  {
    if k + 1 >= |bs| then |bs| else if Fits(bs[k], size) then k else FirstFit(bs, size, k + 1)
  }

  /** A freed block can be given out. */
  predicate Reuses(bs: seq<Block>, size: nat) { FirstFit(bs, size, 0) < |bs| }

  function AfterMalloc(bs: seq<Block>, brk: nat, size: nat): seq<Block> {
    var m := FirstFit(bs, size, 0);
    if m < |bs| then bs[m := bs[m].(live := true, want := size)] else bs + [Block(brk, size, true, size)]
  }

  function BreakAfter(bs: seq<Block>, brk: nat, size: nat): nat {
    if Reuses(bs, size) then brk else brk + size + RECORD_SIZE
  }

  function MallocAddress(bs: seq<Block>, brk: nat, size: nat): nat {
    var m := FirstFit(bs, size, 0);
    if m < |bs| then bs[m].start else brk
  }

  predicate Starts(b: Block, add: nat) { b.start == add }

  /** The first block from `k` on that starts at `add`, or |bs|. */
  function Find(bs: seq<Block>, add: nat, k: nat): (r: nat)
    requires k <= |bs|
    ensures k <= r <= |bs| && (r < |bs| ==> Starts(bs[r], add))
    ensures forall j :: k <= j < r ==> !Starts(bs[j], add)
    decreases |bs| - k
  {
    if k == |bs| || Starts(bs[k], add) then k else Find(bs, add, k + 1)
  }

  function AfterFree(bs: seq<Block>, add: nat): seq<Block> {
    var k := Find(bs, add, 0);
    if k < |bs| then bs[k := bs[k].(live := false)] else bs
  }

  // -------------------------------------------------------- records in bytes

  /** Record `k` stands in memory: size, address, flag and link. */
  ghost predicate RecordOk(mem: Bytes, bs: seq<Block>, k: nat)
    requires k < |bs|
  {
    var r := RecordOf(bs[k]);
    && ReadLE(mem, r, 8) == bs[k].size
    && ReadLE(mem, r + 8, 8) == bs[k].start
    && ReadLE(mem, r + 16, 4) == (if bs[k].live then 1 else 0)
    && ReadLE(mem, r + 24, 8) == if k + 1 < |bs| then RecordOf(bs[k + 1]) else 0
  }

  ghost predicate Records(mem: Bytes, bs: seq<Block>) {
    forall k :: 0 <= k < |bs| ==> RecordOk(mem, bs, k)
  }

  /** A record whose bytes, block and successor stay as they are stays right. */
  lemma RecordKept(mem: Bytes, mem': Bytes, bs: seq<Block>, cs: seq<Block>, k: nat)
    requires k < |bs| && k < |cs| && RecordOk(mem, bs, k)
    requires RecordOf(cs[k]) == RecordOf(bs[k]) && cs[k].start == bs[k].start && cs[k].live == bs[k].live
    requires k + 1 < |bs| <==> k + 1 < |cs|
    requires k + 1 < |bs| ==> RecordOf(cs[k + 1]) == RecordOf(bs[k + 1])
    requires forall a :: InRecord(bs[k], a) ==> At(mem', a) == At(mem, a)
    ensures RecordOk(mem', cs, k)
  {
    hide ReadLE, WriteLE, At;
    var r := RecordOf(bs[k]);
    ReadSame(mem, mem', r, 8);
    ReadSame(mem, mem', r + 8, 8);
    ReadSame(mem, mem', r + 16, 4);
    ReadSame(mem, mem', r + 24, 8);
  }

  /** Setting the flag of record `k`. */
  lemma FlagWritten(mem: Bytes, bs: seq<Block>, base: nat, brk: nat, k: nat, b: Block)
    requires Records(mem, bs) && Placed(bs, base, brk) && k < |bs| && b.start == bs[k].start && b.size == bs[k].size
    ensures Records(WriteLE(mem, RecordOf(bs[k]) + 16, 4, if b.live then 1 else 0), bs[k := b])
  {
    hide ReadLE, WriteLE, At;
    var r, v := RecordOf(bs[k]), if b.live then 1 else 0;
    var mem' := WriteLE(mem, r + 16, 4, v);
    var cs := bs[k := b];
    forall j | 0 <= j < |cs| ensures RecordOk(mem', cs, j) {
      assert RecordOk(mem, bs, j);
      if j == k {
        Powers();
        ReadWrite(mem, r + 16, 4, v);
        WriteKeeps(mem, r + 16, 4, v, r, 8);
        WriteKeeps(mem, r + 16, 4, v, r + 8, 8);
        WriteKeeps(mem, r + 16, 4, v, r + 24, 8);
      } else {
        forall a | InRecord(bs[j], a) ensures At(mem', a) == At(mem, a) {
          BlocksDisjoint(bs, base, brk, j, k, a);
          WriteFrame(mem, r + 16, 4, v, a);
        }
        RecordKept(mem, mem', bs, cs, j);
      }
    }
  }

  /** Bytes changed inside block `k` only. */
  lemma BlockWritten(mem: Bytes, mem': Bytes, bs: seq<Block>, base: nat, brk: nat, k: nat)
    requires Records(mem, bs) && Placed(bs, base, brk) && k < |bs|
    requires forall a: nat :: !InBlock(bs[k], a) ==> At(mem', a) == At(mem, a)
    ensures Records(mem', bs)
  {
    hide ReadLE, WriteLE, At;
    forall j | 0 <= j < |bs| ensures RecordOk(mem', bs, j) {
      assert RecordOk(mem, bs, j);
      forall a | InRecord(bs[j], a) ensures At(mem', a) == At(mem, a) { BlocksDisjoint(bs, base, brk, k, j, a); }
      RecordKept(mem, mem', bs, bs, j);
    }
  }

  /** The four stores that fill in a new record, marked live and last. */
  function NewRecord(mem: Bytes, r: nat, size: nat, address: nat): Bytes {
    WriteLE(WriteLE(WriteLE(WriteLE(mem, r, 8, size), r + 8, 8, address), r + 16, 4, 1), r + 24, 8, 0)
  }

  lemma NewRecordReads(mem: Bytes, r: nat, size: nat, address: nat)
    requires size < TWO64 && address < TWO64
    ensures var mem' := NewRecord(mem, r, size, address);
            && ReadLE(mem', r, 8) == size && ReadLE(mem', r + 8, 8) == address
            && ReadLE(mem', r + 16, 4) == 1 && ReadLE(mem', r + 24, 8) == 0
    ensures forall a: nat :: a < r || r + RECORD_SIZE <= a ==> At(NewRecord(mem, r, size, address), a) == At(mem, a)
  {
    hide ReadLE, WriteLE, At, Pow256;
    Powers();
    var m1 := WriteLE(mem, r, 8, size);
    var m2 := WriteLE(m1, r + 8, 8, address);
    var m3 := WriteLE(m2, r + 16, 4, 1);
    ReadWrite(mem, r, 8, size);
    ReadWrite(m1, r + 8, 8, address);
    ReadWrite(m2, r + 16, 4, 1);
    ReadWrite(m3, r + 24, 8, 0);
    WriteKeeps(m1, r + 8, 8, address, r, 8);
    WriteKeeps(m2, r + 16, 4, 1, r, 8);
    WriteKeeps(m2, r + 16, 4, 1, r + 8, 8);
    WriteKeeps(m3, r + 24, 8, 0, r, 8);
    WriteKeeps(m3, r + 24, 8, 0, r + 8, 8);
    WriteKeeps(m3, r + 24, 8, 0, r + 16, 4);
    forall a: nat | a < r || r + RECORD_SIZE <= a ensures At(NewRecord(mem, r, size, address), a) == At(mem, a) {
      WriteFrame(mem, r, 8, size, a);
      WriteFrame(m1, r + 8, 8, address, a);
      WriteFrame(m2, r + 16, 4, 1, a);
      WriteFrame(m3, r + 24, 8, 0, a);
    }
  }

  /** Where the fields stand: size at 0, address at 8, flag at 16, link at 24; the four bytes
      from 20 on are not written. */
  lemma RecordLayout(mem: Bytes, r: nat, size: nat, address: nat, k: nat)
    requires k < 32
    ensures At(NewRecord(mem, r, size, address), r + k) ==
            if k < 8 then Digit(size, k)
            else if k < 16 then Digit(address, k - 8)
            else if k < 20 then Digit(1, k - 16)
            else if k < 24 then At(mem, r + k)
            else 0
  {
    hide WriteLE, At;
    var m1 := WriteLE(mem, r, 8, size);
    var m2 := WriteLE(m1, r + 8, 8, address);
    var m3 := WriteLE(m2, r + 16, 4, 1);
    WriteFrame(mem, r, 8, size, r + k);
    WriteFrame(m1, r + 8, 8, address, r + k);
    WriteFrame(m2, r + 16, 4, 1, r + k);
    WriteFrame(m3, r + 24, 8, 0, r + k);
    if 24 <= k { DigitOfZero(k - 24); }
  }

  /** Linking the new record behind the tail. */
  function Link(mem: Bytes, bs: seq<Block>, r: nat): Bytes {
    if bs == [] then mem else WriteLE(mem, RecordOf(bs[|bs| - 1]) + 24, 8, r)
  }

  /** A new block at the break, with its record, linked in. */
  lemma Appended(mem: Bytes, bs: seq<Block>, base: nat, brk: nat, size: nat)
    requires Records(mem, bs) && Placed(bs, base, brk) && brk + size < TWO64
    ensures var r := brk + size;
            Records(Link(NewRecord(mem, r, size, brk), bs, r), bs + [Block(brk, size, true, size)])
  {
    hide ReadLE, WriteLE, At, NewRecord, Pow256;
    var n, r := |bs|, brk + size;
    var mem1 := NewRecord(mem, r, size, brk);
    var mem2 := Link(mem1, bs, r);
    var cs := bs + [Block(brk, size, true, size)];
    NewRecordReads(mem, r, size, brk);
    forall j | 0 <= j < |cs| ensures RecordOk(mem2, cs, j) {
      if j == n {
        NewRecordLinked(mem1, bs, brk, r);
      } else {
        assert RecordOk(mem, bs, j) && End(bs[j]) <= brk;
        RecordLinked(mem, mem1, bs, cs, base, brk, j);
      }
    }
  }

  lemma NewRecordLinked(mem: Bytes, bs: seq<Block>, brk: nat, r: nat)
    requires brk <= r && (bs != [] ==> End(bs[|bs| - 1]) <= brk)
    ensures var mem' := Link(mem, bs, r);
            && ReadLE(mem', r, 8) == ReadLE(mem, r, 8) && ReadLE(mem', r + 8, 8) == ReadLE(mem, r + 8, 8)
            && ReadLE(mem', r + 16, 4) == ReadLE(mem, r + 16, 4) && ReadLE(mem', r + 24, 8) == ReadLE(mem, r + 24, 8)
  {
    hide ReadLE, WriteLE, At;
    if bs != [] {
      var t := RecordOf(bs[|bs| - 1]) + 24;
      WriteKeeps(mem, t, 8, r, r, 8);
      WriteKeeps(mem, t, 8, r, r + 8, 8);
      WriteKeeps(mem, t, 8, r, r + 16, 4);
      WriteKeeps(mem, t, 8, r, r + 24, 8);
    }
  }

  lemma RecordLinked(mem: Bytes, mem1: Bytes, bs: seq<Block>, cs: seq<Block>, base: nat, brk: nat, j: nat)
    requires Placed(bs, base, brk) && j < |bs| && RecordOk(mem, bs, j)
    requires |cs| == |bs| + 1 && cs[..|bs|] == bs && cs[|bs|].start == brk && RecordOf(cs[|bs|]) < TWO64
    requires forall a: nat :: a < RecordOf(cs[|bs|]) ==> At(mem1, a) == At(mem, a)
    ensures RecordOk(Link(mem1, bs, RecordOf(cs[|bs|])), cs, j)
  {
    hide ReadLE, WriteLE, At;
    var last, r := |bs| - 1, RecordOf(cs[|bs|]);
    var q, t := RecordOf(bs[j]), RecordOf(bs[last]) + 24;
    var mem2 := WriteLE(mem1, t, 8, r);
    assert cs[j] == bs[j] && End(bs[j]) <= brk;
    forall a: nat | a < t ensures At(mem2, a) == At(mem, a) { WriteFrame(mem1, t, 8, r, a); }
    if j < last {
      assert cs[j + 1] == bs[j + 1] && End(bs[j]) <= bs[last].start;
      ReadSame(mem, mem2, q, 8);
      ReadSame(mem, mem2, q + 8, 8);
      ReadSame(mem, mem2, q + 16, 4);
      ReadSame(mem, mem2, q + 24, 8);
    } else {
      Powers();
      ReadWrite(mem1, t, 8, r);
      ReadSame(mem, mem2, q, 8);
      ReadSame(mem, mem2, q + 8, 8);
      ReadSame(mem, mem2, q + 16, 4);
    }
  }

  // ----------------------------------------------------- pages under accesses

  /** The `n` bytes from `a` on are accessed in turn. */
  function Touch(program: set<nat>, end: nat, a: nat, n: nat): Reach
    decreases n
  {
    if n == 0 then Upto(end) else
    match TouchByte(program, end, a)
    case Stopped => Stopped
    case Upto(end') => Touch(program, end', a + 1, n - 1)
  }

  function ThenTouch(t: Reach, program: set<nat>, a: nat, n: nat): Reach {
    if t.Stopped? then t else Touch(program, t.end, a, n)
  }

  /** The four fields of a record at `r` are stored to; the four bytes before the last are
      padding and are not. */
  function TouchRecord(program: set<nat>, end: nat, r: nat): Reach {
    var size := Touch(program, end, r, 8);
    var address := ThenTouch(size, program, r + 8, 8);
    var flag := ThenTouch(address, program, r + 16, 4);
    ThenTouch(flag, program, r + 24, 8)
  }

  /** The heap ends on one of its pages or behind the last. */
  predicate EndOk(end: nat) { PageOf(HEAP_START) <= end <= PageOf(HEAP_END) + 1 }

  /** Program pages are user pages outside the heap. */
  ghost predicate ProgramOk(program: set<nat>) {
    forall x :: x in program ==> x < TWO47 / TWO12 && !HeapPage(x)
  }

  predicate Touched(program: set<nat>, end: nat, a: nat, n: nat) {
    forall b :: a <= b < a + n ==> IsMapped(program, end, b)
  }

  /** Accesses that are made leave the bytes mapped, and unmap nothing. */
  lemma {:induction false} TouchMaps(program: set<nat>, end: nat, a: nat, n: nat)
    requires EndOk(end)
    ensures Touch(program, end, a, n).Upto? ==>
              var end' := Touch(program, end, a, n).end;
              end <= end' && EndOk(end') && Touched(program, end', a, n)
    decreases n
  {
    if n == 0 {
    } else if TouchByte(program, end, a).Upto? {
      TouchMaps(program, TouchByte(program, end, a).end, a + 1, n - 1);
    }
  }

  lemma {:induction false} TouchMapped(program: set<nat>, end: nat, a: nat, n: nat)
    requires Touched(program, end, a, n)
    ensures Touch(program, end, a, n) == Upto(end)
    decreases n
  {
    if n == 0 {
    } else {
      TouchMapped(program, end, a + 1, n - 1);
    }
  }

  /** Inside the heap region and the rest of its last page, accesses stop exactly when they
      begin behind HEAP_END while its page is not mapped. */
  lemma {:induction false} TouchInHeap(program: set<nat>, end: nat, a: nat, n: nat)
    requires EndOk(end) && ProgramOk(program) && HEAP_START <= a && a + n <= HEAP_END + TWO12
    ensures Touch(program, end, a, n).Upto? <==> n == 0 || a <= HEAP_END || end > PageOf(HEAP_END)
    ensures n > 0 && Touch(program, end, a, n).Upto? ==>
              var last := PageOf(a + n - 1) + 1;
              Touch(program, end, a, n).end == if end < last then last else end
    decreases n
  {
    if n == 0 {
    } else {
      assert HeapPage(PageOf(a));
      if TouchByte(program, end, a).Upto? {
        TouchInHeap(program, TouchByte(program, end, a).end, a + 1, n - 1);
      }
    }
  }

  ghost predicate RecordMapped(program: set<nat>, end: nat, b: Block) {
    Touched(program, end, RecordOf(b), RECORD_SIZE)
  }

  lemma StillMapped(program: set<nat>, end: nat, end': nat, a: nat, n: nat)
    requires end <= end' && Touched(program, end, a, n)
    ensures Touched(program, end', a, n)
  {
    forall b | a <= b < a + n ensures IsMapped(program, end', b) { assert IsMapped(program, end, b); }
  }

  /** All of a record that has been stored to is mapped, its padding included. */
  lemma RecordTouched(program: set<nat>, end: nat, r: nat)
    requires EndOk(end) && ProgramOk(program) && TouchRecord(program, end, r).Upto?
    ensures var end' := TouchRecord(program, end, r).end;
            && end <= end' && EndOk(end') && Touched(program, end', r, RECORD_SIZE)
            && r + RECORD_SIZE <= TWO47
  {
    hide Touch, Touched, IsMapped;
    var t1 := Touch(program, end, r, 8);
    TouchMaps(program, end, r, 8);
    var t2 := Touch(program, t1.end, r + 8, 8);
    TouchMaps(program, t1.end, r + 8, 8);
    var t3 := Touch(program, t2.end, r + 16, 4);
    TouchMaps(program, t2.end, r + 16, 4);
    TouchMaps(program, t3.end, r + 24, 8);
    var end' := Touch(program, t3.end, r + 24, 8).end;
    StillMapped(program, t1.end, end', r, 8);
    BothEndsMapped(program, end', r);
  }

  lemma BothEndsMapped(program: set<nat>, end: nat, r: nat)
    requires EndOk(end) && ProgramOk(program) && Touched(program, end, r, 8) && Touched(program, end, r + 24, 8)
    ensures Touched(program, end, r, RECORD_SIZE) && r + RECORD_SIZE <= TWO47
  {
    assert IsMapped(program, end, r) && IsMapped(program, end, r + 31);
    forall b | r <= b < r + RECORD_SIZE ensures IsMapped(program, end, b) {
      assert PageOf(b) == PageOf(r) || PageOf(b) == PageOf(r + 31);
    }
  }

  /** Where no program page is, a record can be stored if and only if it ends in the heap's
      last page and either that page is mapped or one of its fields lies at or reaches
      HEAP_END before any begins behind it. */
  lemma RecordInHeap(program: set<nat>, end: nat, r: nat)
    requires EndOk(end) && ProgramOk(program) && HEAP_START <= r
    requires PageOf(r) !in program && PageOf(r + RECORD_SIZE - 1) !in program
    ensures TouchRecord(program, end, r).Upto? <==>
            && r + RECORD_SIZE <= HEAP_END + TWO12
            && (end > PageOf(HEAP_END) || (r <= HEAP_END && !(HEAP_END - 24 < r <= HEAP_END - 20)))
  {
    hide Touch, Touched, IsMapped, ProgramOk;
    if r + RECORD_SIZE <= HEAP_END + TWO12 {
      TouchInHeap(program, end, r, 8);
      var t1 := Touch(program, end, r, 8);
      if t1.Upto? {
        TouchMaps(program, end, r, 8);
        TouchInHeap(program, t1.end, r + 8, 8);
        var t2 := Touch(program, t1.end, r + 8, 8);
        if t2.Upto? {
          TouchMaps(program, t1.end, r + 8, 8);
          TouchInHeap(program, t2.end, r + 16, 4);
          var t3 := Touch(program, t2.end, r + 16, 4);
          if t3.Upto? {
            TouchMaps(program, t2.end, r + 16, 4);
            TouchInHeap(program, t3.end, r + 24, 8);
          }
        }
      }
    } else if TouchRecord(program, end, r).Upto? {
      RecordTouched(program, end, r);
      NotMapped(program, TouchRecord(program, end, r).end, r);
    }
  }

  lemma NotMapped(program: set<nat>, end: nat, r: nat)
    requires EndOk(end) && HEAP_END + TWO12 < r + RECORD_SIZE && PageOf(r + RECORD_SIZE - 1) !in program
    ensures !Touched(program, end, r, RECORD_SIZE)
  {
    assert !IsMapped(program, end, r + RECORD_SIZE - 1);
  }

  /** A block whose record is in the heap can be accessed, all of it. */
  lemma BlockReached(program: set<nat>, end: nat, b: Block)
    requires EndOk(end) && ProgramOk(program) && HEAP_START <= b.start && End(b) <= HEAP_END + TWO12
    requires RecordMapped(program, end, b)
    ensures Touch(program, end, b.start, b.size).Upto?
  {
    assert IsMapped(program, end, RecordOf(b));
    assert HeapPage(PageOf(RecordOf(b)));
    TouchInHeap(program, end, b.start, b.size);
  }

  // ------------------------------------------------------------ the new break

  /** Where sb_malloc, whose parameter is an int, puts the record of a new block. */
  function RecordAt(brk: nat, size: nat): nat { (brk + Widened(Wrap(size))) % TWO64 }

  /** The size reaches the kernel, and the break does not wrap around. */
  predicate Room(brk: nat, size: nat) { size < TWO31 && brk + size < TWO64 }

  /** Otherwise, wherever a record can be stored at all, it is too close for its block. */
  lemma RoomDecides(brk: nat, size: nat)
    requires brk < TWO64 && size < TWO64 && RecordAt(brk, size) + RECORD_SIZE <= TWO47
    ensures Room(brk, size) ==> RecordAt(brk, size) == brk + size
    ensures !Room(brk, size) ==> RecordAt(brk, size) < brk + size
  { }

  /** The list of records in memory is that of the blocks, and all of it is mapped. */
  ghost predicate ListOk(mem: Bytes, brk: nat, start: nat, end: nat, program: set<nat>, base: nat, bs: seq<Block>) {
    && HEAP_START <= base && brk < TWO64 && EndOk(end) && ProgramOk(program)
    && Placed(bs, base, brk)
    && (forall k :: 0 <= k < |bs| ==> bs[k].size < TWO31 && RecordMapped(program, end, bs[k]))
    && start == (if bs == [] then 0 else RecordOf(bs[0]))
    && Records(mem, bs)
  }

  // --------------------------------------------------------------- the code

  class Heap {
    var mem: Bytes
    var brk: nat
    var start: nat               // address of the first record, 0 for NULL
    var end: nat                 // the heap is mapped below this page
    const program: set<nat>      // the other pages of the process
    ghost const base: nat        // the break before the first malloc
    ghost var blocks: seq<Block>

    ghost predicate Valid()
      reads this
    {
      ListOk(mem, brk, start, end, program, base, blocks)
    }

    constructor (mem: Bytes, brk: nat, end: nat, program: set<nat>)
      requires HEAP_START <= brk < TWO64 && EndOk(end) && ProgramOk(program)
      ensures Valid() && blocks == [] && base == brk == this.brk && this.mem == mem
      ensures this.end == end && this.program == program
    {
      this.mem, this.brk, this.start, this.end, this.program := mem, brk, 0, end, program;
      this.base, this.blocks := brk, [];
    }

    /** mallocSyscall. */
    method Sbrk(size: nat) returns (address: nat)
      modifies this`brk
      ensures address == old(brk) && brk == (old(brk) + size) % TWO64
    {
      address := brk;
      brk := (brk + size) % TWO64;
    }

    /** sb_malloc as the rest of the library calls it: the list stays in order exactly when
        the break stays behind it. */
    method SbMalloc(size: int) returns (address: nat)
      requires Valid() && IsInt(size)
      modifies this`brk
      ensures address == old(brk) && brk == (old(brk) + Widened(size)) % TWO64
      ensures Valid() <==> Placed(blocks, base, brk)
      ensures 0 <= size && old(brk) + size < TWO64 ==> Valid() && brk == old(brk) + size
    {
      address := Sbrk(Widened(size));
    }

    /** A store of `n` bytes by the program. */
    method StoreField(a: nat, n: nat, v: nat) returns (stopped: bool)
      modifies this`mem, this`end
      ensures stopped <==> Touch(program, old(end), a, n).Stopped?
      ensures !stopped ==> Touch(program, old(end), a, n) == Upto(end) && mem == WriteLE(old(mem), a, n, v)
    {
      var t := Touch(program, end, a, n);
      if t.Stopped? {
        return true;
      }
      end := t.end;
      mem := WriteLE(mem, a, n, v);
      stopped := false;
    }

    /** The four stores into a new record. */
    method Fill(r: nat, size: nat, address: nat) returns (stopped: bool)
      modifies this`mem, this`end
      ensures stopped <==> TouchRecord(program, old(end), r).Stopped?
      ensures !stopped ==> TouchRecord(program, old(end), r) == Upto(end)
      ensures !stopped ==> mem == NewRecord(old(mem), r, size, address)
    {
      hide Touch, WriteLE;
      stopped := StoreField(r, 8, size);
      if stopped { return; }
      stopped := StoreField(r + 8, 8, address);
      if stopped { return; }
      stopped := StoreField(r + 16, 4, 1);
      if stopped { return; }
      stopped := StoreField(r + 24, 8, 0);
    }

    /** A block from the break, its record behind it, and the link to it.  The process stops
        when the record cannot be stored; otherwise the list is in order exactly when there
        is room. */
    method Extend(size: nat, tail: nat) returns (stopped: bool, address: nat)
      requires Valid() && size < TWO64
      requires blocks != [] ==> tail == RecordOf(blocks[|blocks| - 1])
      modifies this
      ensures stopped <==> TouchRecord(program, old(end), RecordAt(old(brk), size)).Stopped?
      ensures !stopped ==> blocks == old(blocks) + [Block(old(brk), size, true, size)] && address == old(brk)
      ensures !stopped ==> (Placed(blocks, base, brk) <==> Room(old(brk), size))
      ensures !stopped ==> (Valid() <==> Room(old(brk), size))
      ensures !stopped && Valid() ==> brk == old(brk) + size + RECORD_SIZE
      ensures !stopped && Valid() ==> ChangedAtTail(old(mem), mem, old(blocks), old(brk))
    {
      hide ListOk, Placed, Link, NewRecord, WriteLE, Touch, TouchRecord, Room, ChangedAtTail, Wrap;
      ghost var mem0, bs, brk0, start0, end0 := mem, blocks, brk, start, end;
      StartIsNull(mem, brk, start, end, program, base, blocks);
      address := Sbrk(Widened(Wrap(size)));
      var r := Sbrk(RECORD_SIZE);
      var none := start == 0;
      if none {
        start := r;
      }
      stopped := Fill(r, size, address);
      if stopped { return; }
      ExtendedList(mem0, brk0, start0, end0, program, base, bs, size, end);
      if !none {
        stopped := StoreField(tail + 24, 8, r);
      }
      assert mem == Link(NewRecord(mem0, r, size, address), bs, r) by { LinkIs(mem0, bs, r, size, address); }
      blocks := blocks + [Block(address, size, true, size)];
    }

    /** malloc's walk over the list: the record it settles on, if any, and the tail.
        Its variable `min` holds the request after the first hit, so that no later
        block can be smaller and the first fitting block wins. */
    method Search(size: nat) returns (flag: bool, mintemp: nat, tail: nat)
      requires Valid() && blocks != []
      ensures tail == RecordOf(blocks[|blocks| - 1])
      ensures flag <==> Reuses(blocks, size)
      ensures flag ==> mintemp == RecordOf(blocks[FirstFit(blocks, size, 0)])
    {
      hide ReadLE, At, RecordMapped, ProgramOk, EndOk;
      var min := 10000;
      mintemp, flag := 0, false;
      var temp := start;
      ghost var k := 0;
      while ReadLE(mem, temp + 24, 8) != 0
        invariant 0 <= k < |blocks| && temp == RecordOf(blocks[k])
        invariant flag ==> min == size && FirstFit(blocks, size, 0) < k
        invariant flag ==> mintemp == RecordOf(blocks[FirstFit(blocks, size, 0)])
        invariant !flag ==> min == 10000 && FirstFit(blocks, size, 0) == FirstFit(blocks, size, k)
        decreases |blocks| - k
      {
        assert RecordOk(mem, blocks, k);
        if ReadLE(mem, temp + 16, 4) == 0 {
          if ReadLE(mem, temp, 8) > size {
            if min > ReadLE(mem, temp, 8) {
              min := size;
              mintemp := temp;
              flag := true;
            }
          }
        }
        temp := ReadLE(mem, temp + 24, 8);
        k := k + 1;
      }
      assert RecordOk(mem, blocks, k);
      tail := temp;
    }

    /** malloc's reuse of a freed block: the flag in its record is set again. */
    method Reuse(mintemp: nat, ghost m: nat, ghost size: nat) returns (address: nat)
      requires Valid() && m < |blocks| && mintemp == RecordOf(blocks[m])
      modifies this`mem, this`blocks
      ensures Valid() && blocks == old(blocks)[m := old(blocks)[m].(live := true, want := size)]
      ensures address == old(blocks)[m].start
      ensures forall a: nat :: !InRecord(old(blocks)[m], a) ==> At(mem, a) == At(old(mem), a)
    {
      hide ListOk, ReadLE, WriteLE, At;
      ghost var mem0, bs := mem, blocks;
      Flagged(mem, brk, start, end, program, base, bs, m, bs[m].(live := true, want := size));
      mem := WriteLE(mem, mintemp + 16, 4, 1);
      blocks := blocks[m := bs[m].(live := true, want := size)];
      WriteKeeps(mem0, mintemp + 16, 4, 1, mintemp + 8, 8);
      address := ReadLE(mem, mintemp + 8, 8);
      forall a: nat | !InRecord(bs[m], a) ensures At(mem, a) == At(mem0, a) {
        WriteFrame(mem0, mintemp + 16, 4, 1, a);
      }
    }

    /** malloc, for every size.  The process stops if and only if no freed block is reused
        and the new record cannot be stored; otherwise what happens to the list is as
        specified, and memory agrees with it if and only if a freed block is reused or there
        is room. */
    method Malloc(size: nat) returns (stopped: bool, address: nat)
      requires Valid() && size < TWO64
      modifies this
      ensures stopped <==>
              !Reuses(old(blocks), size) && TouchRecord(program, old(end), RecordAt(old(brk), size)).Stopped?
      ensures !stopped ==> blocks == AfterMalloc(old(blocks), old(brk), size)
      ensures !stopped ==> address == MallocAddress(old(blocks), old(brk), size)
      ensures !stopped ==> (Valid() <==> Reuses(old(blocks), size) || Room(old(brk), size))
      ensures !stopped && Valid() ==> brk == BreakAfter(old(blocks), old(brk), size)
      ensures !stopped && Valid() ==> SameBlocks(old(mem), mem, old(blocks))
    {
      hide ListOk, ReadLE, WriteLE, At, Records, RecordAt, Room, TouchRecord, Touch, Placed;
      ghost var mem0, brk0, bs := mem, brk, blocks;
      StartIsNull(mem, brk, start, end, program, base, blocks);
      ListPlaced(mem, brk, start, end, program, base, blocks);
      if start == 0 {
        stopped, address := Extend(size, 0);
        return;
      }
      var flag, mintemp, tail := Search(size);
      if flag {
        ghost var m := FirstFit(bs, size, 0);
        address := Reuse(mintemp, m, size);
        stopped := false;
        ChangeInRecord(mem0, mem, bs, base, brk0, m);
      } else {
        stopped, address := Extend(size, tail);
        if !stopped && Valid() {
          OnlyTailChanged(mem0, mem, bs, base, brk0);
        }
      }
    }

    /** A program stores into a block it holds. */
    method Poke(a: nat, b: Byte, ghost k: nat) returns (stopped: bool)
      requires Valid() && k < |blocks| && blocks[k].live && InBlock(blocks[k], a)
      modifies this`mem, this`end
      ensures stopped <==> TouchByte(program, old(end), a).Stopped?
      ensures !stopped ==> Valid() && forall a': nat :: At(mem, a') == if a' == a then b else At(old(mem), a')
      ensures End(blocks[k]) <= HEAP_END + TWO12 ==> !stopped
    {
      hide ListOk;
      ghost var mem0, end0 := mem, end;
      InHeapNotStopped(mem, brk, start, end, program, base, blocks, k, a);
      ListPlaced(mem, brk, start, end, program, base, blocks);
      var t := TouchByte(program, end, a);
      if t.Stopped? {
        return true;
      }
      end := t.end;
      mem := mem[a := b];
      stopped := false;
      Grows(mem0, brk, start, end0, end, program, base, blocks, a, 1);
      Overwritten(mem0, mem, brk, start, end, program, base, blocks, k);
    }

    /** memset to zero, whose size is an int. */
    method Clear(address: nat, size: int) returns (stopped: bool)
      requires IsInt(size)
      modifies this`mem, this`end
      ensures var n := if size < 0 then 0 else size;
              && (stopped <==> Touch(program, old(end), address, n).Stopped?)
              && (!stopped ==> Touch(program, old(end), address, n) == Upto(end))
              && (!stopped ==> forall a: nat :: At(mem, a) == if address <= a < address + n then 0 else At(old(mem), a))
    {
      ghost var n := if size < 0 then 0 else size;
      var i := 0;
      while i < size
        invariant 0 <= i <= n
        invariant Touch(program, old(end), address, n) == Touch(program, end, address + i, n - i)
        invariant forall a: nat :: At(mem, a) == if address <= a < address + i then 0 else At(old(mem), a)
      {
        var t := TouchByte(program, end, address + i);
        if t.Stopped? {
          return true;
        }
        end := t.end;
        ghost var before := mem;
        mem := mem[address + i := 0];
        assert forall a: nat :: At(mem, a) == if a == address + i then 0 else At(before, a);
        i := i + 1;
      }
      stopped := false;
    }

    /** What free does to the record it has found. */
    method Release(temp: nat, ghost k: nat) returns (stopped: bool)
      requires Valid() && k < |blocks| && temp == RecordOf(blocks[k])
      modifies this`mem, this`end, this`blocks
      ensures stopped <==> Touch(program, old(end), old(blocks)[k].start, old(blocks)[k].size).Stopped?
      ensures !stopped ==> Valid() && blocks == old(blocks)[k := old(blocks)[k].(live := false)]
      ensures !stopped ==> forall a: nat :: InBlock(old(blocks)[k], a) ==> At(mem, a) == 0
      ensures !stopped ==> forall a: nat :: !InBlock(old(blocks)[k], a) && !InRecord(old(blocks)[k], a) ==>
                At(mem, a) == At(old(mem), a)
    {
      hide ListOk, ReadLE, WriteLE, At, Touch, Wrap;
      ghost var mem0, bs, end0 := mem, blocks, end;
      Flagged(mem, brk, start, end, program, base, bs, k, bs[k].(live := false));
      mem := WriteLE(mem, temp + 16, 4, 0);
      ghost var mem1 := mem;
      blocks := bs[k := bs[k].(live := false)];
      WriteKeeps(mem0, temp + 16, 4, 0, temp, 8);
      WriteKeeps(mem0, temp + 16, 4, 0, temp + 8, 8);
      var address, size := ReadLE(mem, temp + 8, 8), ReadLE(mem, temp, 8);
      WrapShift(size, 0);
      stopped := Clear(address, Wrap(size));
      if stopped { return; }
      Grows(mem1, brk, start, end0, end, program, base, blocks, address, size);
      Overwritten(mem1, mem, brk, start, end, program, base, blocks, k);
      forall a: nat | !InRecord(bs[k], a) ensures At(mem1, a) == At(mem0, a) {
        WriteFrame(mem0, temp + 16, 4, 0, a);
      }
    }

    /** free.  Only the block that starts at `add` is touched, and it is cleared; the process
        stops if and only if that block cannot be accessed. */
    method Free(add: nat) returns (stopped: bool)
      requires Valid()
      modifies this`mem, this`end, this`blocks
      ensures stopped <==> FreeStops(program, old(end), old(blocks), add)
      ensures !stopped ==> Valid() && blocks == AfterFree(old(blocks), add)
      ensures !stopped ==> SameBlocksBut(old(mem), mem, old(blocks), add)
    {
      hide ListOk, ReadLE, WriteLE, At, Records, Touch;
      ghost var mem0, bs := mem, blocks;
      ListPlaced(mem, brk, start, end, program, base, blocks);
      var temp := start;
      ghost var k := 0;
      while temp != 0
        invariant 0 <= k <= |bs| && temp == (if k < |bs| then RecordOf(bs[k]) else 0)
        invariant mem == mem0 && blocks == bs && end == old(end) && Valid()
        invariant Find(bs, add, 0) == Find(bs, add, k)
        decreases |bs| - k
      {
        ReadRecord(mem, brk, start, end, program, base, bs, k);
        if add == ReadLE(mem, temp + 8, 8) {
          OneStart(bs, base, brk, k, add);
          stopped := Release(temp, k);
          if !stopped { ChangeInBlock(mem0, mem, bs, base, brk, k, add); }
          return;
        }
        temp := ReadLE(mem, temp + 24, 8);
        k := k + 1;
      }
      NothingFreed(mem, bs, add);
      stopped := false;
    }
  }

  lemma ListPlaced(mem: Bytes, brk: nat, start: nat, end: nat, program: set<nat>, base: nat, bs: seq<Block>)
    requires ListOk(mem, brk, start, end, program, base, bs)
    ensures Placed(bs, base, brk) && start == (if bs == [] then 0 else RecordOf(bs[0]))
    ensures forall k :: 0 <= k < |bs| ==> RecordOf(bs[k]) > 0
  { }

  lemma ReadRecord(mem: Bytes, brk: nat, start: nat, end: nat, program: set<nat>, base: nat, bs: seq<Block>, k: nat)
    requires ListOk(mem, brk, start, end, program, base, bs) && k < |bs|
    ensures RecordOk(mem, bs, k)
  { }

  /** A changed flag keeps the list, and the fields beside it. */
  lemma Flagged(mem: Bytes, brk: nat, start: nat, end: nat, program: set<nat>, base: nat, bs: seq<Block>,
                k: nat, b: Block)
    requires ListOk(mem, brk, start, end, program, base, bs) && k < |bs|
    requires b.start == bs[k].start && b.size == bs[k].size
    ensures var mem' := WriteLE(mem, RecordOf(bs[k]) + 16, 4, if b.live then 1 else 0);
            ListOk(mem', brk, start, end, program, base, bs[k := b])
    ensures ReadLE(mem, RecordOf(bs[k]), 8) == bs[k].size < TWO31 && ReadLE(mem, RecordOf(bs[k]) + 8, 8) == bs[k].start
  {
    hide ReadLE, WriteLE, At, Touched, ProgramOk, EndOk, Placed;
    assert RecordOk(mem, bs, k);
    FlagWritten(mem, bs, base, brk, k, b);
    Replaced(bs, base, brk, k, b);
    var cs := bs[k := b];
    forall j | 0 <= j < |cs| ensures RecordMapped(program, end, cs[j]) {
      assert RecordMapped(program, end, bs[j]);
    }
  }

  /** More of the heap is mapped. */
  lemma Grows(mem: Bytes, brk: nat, start: nat, end: nat, end': nat, program: set<nat>, base: nat, bs: seq<Block>,
              a: nat, n: nat)
    requires ListOk(mem, brk, start, end, program, base, bs) && Touch(program, end, a, n) == Upto(end')
    ensures ListOk(mem, brk, start, end', program, base, bs)
  {
    hide Touch, Touched, Records, ProgramOk, EndOk;
    TouchMaps(program, end, a, n);
    forall k | 0 <= k < |bs| ensures RecordMapped(program, end', bs[k]) {
      assert RecordMapped(program, end, bs[k]);
      StillMapped(program, end, end', RecordOf(bs[k]), RECORD_SIZE);
    }
  }

  lemma Overwritten(mem: Bytes, mem': Bytes, brk: nat, start: nat, end: nat, program: set<nat>, base: nat,
                    bs: seq<Block>, k: nat)
    requires ListOk(mem, brk, start, end, program, base, bs) && k < |bs|
    requires forall a: nat :: !InBlock(bs[k], a) ==> At(mem', a) == At(mem, a)
    ensures ListOk(mem', brk, start, end, program, base, bs)
  {
    hide At, Touched, ProgramOk, EndOk, RecordMapped;
    BlockWritten(mem, mem', bs, base, brk, k);
  }

  lemma InHeapNotStopped(mem: Bytes, brk: nat, start: nat, end: nat, program: set<nat>, base: nat, bs: seq<Block>,
                         k: nat, a: nat)
    requires ListOk(mem, brk, start, end, program, base, bs) && k < |bs| && InBlock(bs[k], a)
    ensures End(bs[k]) <= HEAP_END + TWO12 ==> TouchByte(program, end, a).Upto?
  {
    if End(bs[k]) <= HEAP_END + TWO12 {
      assert RecordMapped(program, end, bs[k]);
      assert IsMapped(program, end, RecordOf(bs[k])) && HeapPage(PageOf(RecordOf(bs[k])));
    }
  }

  /** There is a block at `add`, and clearing it meets a page that cannot be mapped. */
  ghost predicate FreeStops(program: set<nat>, end: nat, bs: seq<Block>, add: nat) {
    exists k :: 0 <= k < |bs| && Starts(bs[k], add) && Touch(program, end, add, bs[k].size).Stopped?
  }

  /** Every byte of every block, in use or not, is as it was. */
  ghost predicate SameBlocks(mem: Bytes, mem': Bytes, bs: seq<Block>) {
    forall k, a: nat :: 0 <= k < |bs| && InBlock(bs[k], a) ==> At(mem', a) == At(mem, a)
  }

  /** The block at `add` is cleared; every byte of every other block is as it was. */
  ghost predicate SameBlocksBut(mem: Bytes, mem': Bytes, bs: seq<Block>, add: nat) {
    forall k, a: nat :: 0 <= k < |bs| && InBlock(bs[k], a) ==>
      At(mem', a) == if Starts(bs[k], add) then 0 else At(mem, a)
  }

  lemma ChangeInRecord(mem: Bytes, mem': Bytes, bs: seq<Block>, base: nat, brk: nat, m: nat)
    requires Placed(bs, base, brk) && m < |bs|
    requires forall a: nat :: a < brk && !InRecord(bs[m], a) ==> At(mem', a) == At(mem, a)
    ensures SameBlocks(mem, mem', bs)
  {
    forall k, a: nat | 0 <= k < |bs| && InBlock(bs[k], a) ensures At(mem', a) == At(mem, a) {
      BlocksDisjoint(bs, base, brk, k, m, a);
    }
  }

  lemma OnlyTailChanged(mem: Bytes, mem': Bytes, bs: seq<Block>, base: nat, brk: nat)
    requires Placed(bs, base, brk) && bs != [] && ChangedAtTail(mem, mem', bs, brk)
    ensures SameBlocks(mem, mem', bs)
  {
    ChangeInRecord(mem, mem', bs, base, brk, |bs| - 1);
  }

  lemma ChangeInBlock(mem: Bytes, mem': Bytes, bs: seq<Block>, base: nat, brk: nat, m: nat, add: nat)
    requires Placed(bs, base, brk) && m < |bs| && Starts(bs[m], add)
    requires forall a: nat :: InBlock(bs[m], a) ==> At(mem', a) == 0
    requires forall a: nat :: !InBlock(bs[m], a) && !InRecord(bs[m], a) ==> At(mem', a) == At(mem, a)
    ensures SameBlocksBut(mem, mem', bs, add)
  {
    forall k, a: nat | 0 <= k < |bs| && InBlock(bs[k], a)
      ensures At(mem', a) == if Starts(bs[k], add) then 0 else At(mem, a)
    {
      OneStart(bs, base, brk, m, add);
      BlocksDisjoint(bs, base, brk, k, m, a);
    }
  }

  lemma NothingFreed(mem: Bytes, bs: seq<Block>, add: nat)
    requires Find(bs, add, 0) == |bs|
    ensures SameBlocksBut(mem, mem, bs, add)
  { }

  /** No two blocks start at one address. */
  lemma OneStart(bs: seq<Block>, base: nat, brk: nat, k: nat, add: nat)
    requires Placed(bs, base, brk) && k < |bs| && Starts(bs[k], add)
    ensures forall j :: 0 <= j < |bs| && Starts(bs[j], add) ==> j == k
  { }

  lemma LinkIs(mem: Bytes, bs: seq<Block>, r: nat, size: nat, address: nat)
    ensures Link(NewRecord(mem, r, size, address), bs, r) ==
            if bs == [] then NewRecord(mem, r, size, address)
            else WriteLE(NewRecord(mem, r, size, address), RecordOf(bs[|bs| - 1]) + 24, 8, r)
  { }

  lemma StartIsNull(mem: Bytes, brk: nat, start: nat, end: nat, program: set<nat>, base: nat, bs: seq<Block>)
    requires ListOk(mem, brk, start, end, program, base, bs)
    ensures start == 0 <==> bs == []
  { }

  /** What the list is after a new block, in order or not. */
  lemma ExtendedList(mem: Bytes, brk: nat, start: nat, end: nat, program: set<nat>, base: nat, bs: seq<Block>,
                 size: nat, end': nat)
    requires ListOk(mem, brk, start, end, program, base, bs) && size < TWO64
    requires TouchRecord(program, end, RecordAt(brk, size)) == Upto(end')
    ensures var r, cs := RecordAt(brk, size), bs + [Block(brk, size, true, size)];
            var mem' := Link(NewRecord(mem, r, size, brk), bs, r);
            var brk' := (r + RECORD_SIZE) % TWO64;
            && (ListOk(mem', brk', if bs == [] then r else start, end', program, base, cs) <==> Room(brk, size))
            && (Placed(cs, base, brk') <==> Room(brk, size))
            && (bs != [] ==> Touch(program, end', RecordOf(bs[|bs| - 1]) + 24, 8) == Upto(end'))
            && (Room(brk, size) ==> brk' == brk + size + RECORD_SIZE && ChangedAtTail(mem, mem', bs, brk))
  {
    hide ReadLE, WriteLE, At, NewRecord, Link, TouchRecord, Touch, Touched, Records, RecordAt, RecordMapped, ProgramOk,
         EndOk, ChangedAtTail;
    var r, cs := RecordAt(brk, size), bs + [Block(brk, size, true, size)];
    RecordTouched(program, end, r);
    RoomDecides(brk, size);
    if bs != [] { LastMapped(program, end, end', bs); }
    if Room(brk, size) {
      Appended(mem, bs, base, brk, size);
      AppendedPlaced(bs, base, brk, size);
      AppendedMapped(program, end, end', bs, cs[|bs|]);
      LinkChanges(mem, bs, brk, size);
    } else {
      assert End(cs[|bs|]) > r + RECORD_SIZE;
    }
  }

  /** Below the old break only the tail's link changes. */
  ghost predicate ChangedAtTail(mem: Bytes, mem': Bytes, bs: seq<Block>, brk: nat) {
    forall a: nat :: a < brk && (bs == [] || !InRecord(bs[|bs| - 1], a)) ==> At(mem', a) == At(mem, a)
  }

  lemma LinkChanges(mem: Bytes, bs: seq<Block>, brk: nat, size: nat)
    requires brk < TWO64 && size < TWO64
    ensures ChangedAtTail(mem, Link(NewRecord(mem, brk + size, size, brk), bs, brk + size), bs, brk)
  {
    hide WriteLE, At, NewRecord;
    var mem1 := NewRecord(mem, brk + size, size, brk);
    NewRecordReads(mem, brk + size, size, brk);
    if bs != [] {
      var tail := RecordOf(bs[|bs| - 1]);
      forall a: nat | !InRecord(bs[|bs| - 1], a) ensures At(WriteLE(mem1, tail + 24, 8, brk + size), a) == At(mem1, a) {
        WriteFrame(mem1, tail + 24, 8, brk + size, a);
      }
    }
  }

  lemma AppendedPlaced(bs: seq<Block>, base: nat, brk: nat, size: nat)
    requires Placed(bs, base, brk)
    ensures Placed(bs + [Block(brk, size, true, size)], base, brk + size + RECORD_SIZE)
  { }

  lemma AppendedMapped(program: set<nat>, end: nat, end': nat, bs: seq<Block>, b: Block)
    requires end <= end' && forall k :: 0 <= k < |bs| ==> RecordMapped(program, end, bs[k])
    requires Touched(program, end', RecordOf(b), RECORD_SIZE)
    ensures forall k :: 0 <= k < |bs + [b]| ==> RecordMapped(program, end', (bs + [b])[k])
  {
    hide Touched;
    forall k | 0 <= k < |bs| ensures RecordMapped(program, end', bs[k]) {
      assert RecordMapped(program, end, bs[k]);
      StillMapped(program, end, end', RecordOf(bs[k]), RECORD_SIZE);
    }
  }

  /** Linking does not fault. */
  lemma LastMapped(program: set<nat>, end: nat, end': nat, bs: seq<Block>)
    requires bs != [] && end <= end' && RecordMapped(program, end, bs[|bs| - 1])
    ensures Touch(program, end', RecordOf(bs[|bs| - 1]) + 24, 8) == Upto(end')
  {
    var r := RecordOf(bs[|bs| - 1]);
    StillMapped(program, end, end', r, RECORD_SIZE);
    TouchMapped(program, end', r + 24, 8);
  }

  // ------------------------------------------------------------------- sizes

  /** A fresh process asks for 256 MiB and stops, whatever it has mapped below the heap. */
  lemma QuarterGigabyteStops(program: set<nat>, end: nat)
    requires EndOk(end) && 0x1_8000 !in program
    ensures Room(HEAP_START, 0x1000_0000)
    ensures TouchRecord(program, end, RecordAt(HEAP_START, 0x1000_0000)).Stopped?
  {
    assert RecordAt(HEAP_START, 0x1000_0000) == 0x1800_0000;
    assert TouchByte(program, end, 0x1800_0000).Stopped?;
  }

  /** Nothing is stored beyond the users' half. */
  lemma HighRecordStops(program: set<nat>, end: nat, r: nat)
    requires EndOk(end) && ProgramOk(program) && TWO47 < r + RECORD_SIZE
    ensures TouchRecord(program, end, r).Stopped?
  {
    hide Touch, TouchRecord;
    if TouchRecord(program, end, r).Upto? {
      RecordTouched(program, end, r);
      assert false;
    }
  }

  /** A size that is negative as an int leads into the kernel's half, and stops it, too. */
  lemma KernelHalfStops(program: set<nat>, end: nat)
    requires EndOk(end) && ProgramOk(program)
    ensures RecordAt(HEAP_START, 0xFFFF_FFFF_8000_0000) == 0xFFFF_FFFF_8800_0000
    ensures TouchRecord(program, end, RecordAt(HEAP_START, 0xFFFF_FFFF_8000_0000)).Stopped?
  {
    hide Touch, TouchRecord;
    assert Wrap(0xFFFF_FFFF_8000_0000) == -0x8000_0000;
    HighRecordStops(program, end, 0xFFFF_FFFF_8800_0000);
  }

  // ------------------------------------------------------------------- runs

  /** The allocator's calls, and sb_malloc called by the rest of the library. */
  datatype Call = MallocCall(size: nat) | FreeCall(add: nat) | SbMallocCall(size: nat)

  function Step(bs: seq<Block>, brk: nat, c: Call): (seq<Block>, nat) {
    match c
    case MallocCall(size) => (AfterMalloc(bs, brk, size), BreakAfter(bs, brk, size))
    case FreeCall(add) => (AfterFree(bs, add), brk)
    case SbMallocCall(size) => (bs, brk + size)
  }

  function Run(bs: seq<Block>, brk: nat, calls: seq<Call>): (seq<Block>, nat)
    decreases |calls|
  {
    if calls == [] then (bs, brk) else
    var (bs', brk') := Step(bs, brk, calls[0]);
    Run(bs', brk', calls[1..])
  }

  /** Every live block is at least as large as it was asked to be. */
  ghost predicate LargeEnough(bs: seq<Block>) {
    forall k :: 0 <= k < |bs| && bs[k].live ==> bs[k].want <= bs[k].size
  }

  /** Over every run of calls live blocks are large enough, blocks stay apart and never
      move or shrink, and the break only grows. */
  lemma {:induction false} RunKeeps(bs: seq<Block>, base: nat, brk: nat, calls: seq<Call>)
    requires LargeEnough(bs) && Placed(bs, base, brk)
    ensures var (bs', brk') := Run(bs, brk, calls);
            && LargeEnough(bs') && Placed(bs', base, brk') && brk <= brk' && |bs| <= |bs'|
            && forall k :: 0 <= k < |bs| ==> bs'[k].start == bs[k].start && bs'[k].size == bs[k].size
    decreases |calls|
  {
    hide Placed, LargeEnough, Step;
    if calls == [] {
    } else {
      StepKeeps(bs, base, brk, calls[0]);
      var (bs1, brk1) := Step(bs, brk, calls[0]);
      RunKeeps(bs1, base, brk1, calls[1..]);
    }
  }

  lemma StepKeeps(bs: seq<Block>, base: nat, brk: nat, c: Call)
    requires LargeEnough(bs) && Placed(bs, base, brk)
    ensures var (bs', brk') := Step(bs, brk, c);
            && LargeEnough(bs') && Placed(bs', base, brk') && brk <= brk' && |bs| <= |bs'|
            && forall k :: 0 <= k < |bs| ==> bs'[k].start == bs[k].start && bs'[k].size == bs[k].size
  {
    hide Placed;
    match c
    case MallocCall(size) =>
      if Reuses(bs, size) {
        Replaced(bs, base, brk, FirstFit(bs, size, 0), AfterMalloc(bs, brk, size)[FirstFit(bs, size, 0)]);
      } else {
        AppendedPlaced(bs, base, brk, size);
      }
    case FreeCall(add) =>
      var k := Find(bs, add, 0);
      if k < |bs| { Replaced(bs, base, brk, k, bs[k].(live := false)); }
    case SbMallocCall(size) =>
      BreakForward(bs, base, brk, brk + size);
  }

  lemma BreakForward(bs: seq<Block>, base: nat, brk: nat, brk': nat)
    requires Placed(bs, base, brk) && brk <= brk'
    ensures Placed(bs, base, brk')
  { }

  /** What one malloc returns: a block that was not live before, is live now and is
      large enough; all other blocks are as they were. */
  lemma MallocGivesUnheldBlock(bs: seq<Block>, brk: nat, size: nat)
    ensures var m := FirstFit(bs, size, 0);
            var cs := AfterMalloc(bs, brk, size);
            && m < |cs| && cs[m].live && size <= cs[m].size
            && MallocAddress(bs, brk, size) == cs[m].start
            && (m < |bs| ==> !bs[m].live)
            && (forall k :: 0 <= k < |bs| && k != m ==> cs[k] == bs[k])
  { }

  /** free after malloc: the block is unused again, everything else as malloc left it. */
  lemma FreeUndoesMalloc(bs: seq<Block>, base: nat, brk: nat, size: nat)
    requires Placed(bs, base, brk)
    ensures var m := FirstFit(bs, size, 0);
            var cs := AfterMalloc(bs, brk, size);
            var ds := AfterFree(cs, MallocAddress(bs, brk, size));
            && |ds| == |cs| && m < |ds| && !ds[m].live && ds[m].size == cs[m].size
            && (forall k :: 0 <= k < |bs| && k != m ==> ds[k] == bs[k])
  {
    var m := FirstFit(bs, size, 0);
    var cs := AfterMalloc(bs, brk, size);
    OneStart(cs, base, BreakAfter(bs, brk, size), m, MallocAddress(bs, brk, size));
  }

  /** Fresh memory is taken exactly when no freed block in front of the tail fits. */
  lemma FreshExactlyWhenNoneFits(bs: seq<Block>, brk: nat, size: nat)
    ensures |AfterMalloc(bs, brk, size)| > |bs| <==>
            forall k :: 0 <= k < |bs| - 1 ==> !(!bs[k].live && size < bs[k].size && bs[k].size < 10000)
    ensures |AfterMalloc(bs, brk, size)| > |bs| ==>
              && AfterMalloc(bs, brk, size) == bs + [Block(brk, size, true, size)]
              && BreakAfter(bs, brk, size) == brk + size + 32
  {
    var m := FirstFit(bs, size, 0);
    if m < |bs| {
      assert Fits(bs[m], size);
    } else {
      assert forall k :: 0 <= k < |bs| - 1 ==> !Fits(bs[k], size);
    }
  }

  /** Otherwise the block is the first of those that are unused, larger than the request,
      smaller than 10000 bytes and not the last; nothing but its flag changes. */
  lemma ReusedIsFirst(bs: seq<Block>, brk: nat, size: nat)
    requires |AfterMalloc(bs, brk, size)| == |bs|
    ensures exists k ::
              && 0 <= k < |bs| - 1 && !bs[k].live && size < bs[k].size && bs[k].size < 10000
              && (forall j :: 0 <= j < k ==> bs[j].live || bs[j].size <= size || 10000 <= bs[j].size)
              && AfterMalloc(bs, brk, size) == bs[k := Block(bs[k].start, bs[k].size, true, size)]
              && MallocAddress(bs, brk, size) == bs[k].start && BreakAfter(bs, brk, size) == brk
  {
    var m := FirstFit(bs, size, 0);
    assert Fits(bs[m], size) && forall j :: 0 <= j < m ==> !Fits(bs[j], size);
  }

  /** The search looks as if it chose the smallest fitting block; it does not. */
  lemma FirstNotSmallest(a: nat)
    ensures var bs := [Block(a, 9000, false, 1), Block(a + 9032, 100, false, 1), Block(a + 9164, 8, true, 8)];
            FirstFit(bs, 50, 0) == 0 && Fits(bs[1], 50) && bs[1].size < bs[0].size
  { }
}
