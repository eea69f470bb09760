/** The list of processes, threaded through `next`, as the system calls rewire it
    (sys/syscall.c, sys/process.c).  A process is named by the address of its
    record; 0 is NULL. */
module Processes {

  type Links = map<nat, nat>

  function Next(next: Links, x: nat): nat { if x in next then next[x] else 0 }

  // ------------------------------------------------------------------ rings

  function Succ(ring: seq<nat>, i: nat): nat
    requires i < |ring|
  {
    if i + 1 < |ring| then ring[i + 1] else ring[0]
  }

  ghost predicate Distinct(ring: seq<nat>) {
    forall i, j :: 0 <= i < j < |ring| ==> ring[i] != ring[j]
  }

  /** The links form one cycle over `ring`, read from its first element on. */
  ghost predicate Ring(next: Links, ring: seq<nat>) {
    && |ring| > 0 && 0 !in ring && Distinct(ring)
    && forall i :: 0 <= i < |ring| ==> ring[i] in next && next[ring[i]] == Succ(ring, i)
  }

  /** Where following the links leads in `n` steps. */
  function Iter(next: Links, x: nat, n: nat): nat {
    if n == 0 then x else Next(next, Iter(next, x, n - 1))
  }

  ghost predicate OnCycle(next: Links, x: nat) {
    exists n: nat :: n > 0 && Iter(next, x, n) == x
  }

  /** The predecessor search of exitSyscall comes to an end. */
  ghost predicate SearchEnds(next: Links, x: nat) {
    exists n: nat :: Next(next, Iter(next, Next(next, x), n)) == x
  }

  lemma {:induction false} IterShift(next: Links, x: nat, n: nat)
    ensures Iter(next, x, n + 1) == Iter(next, Next(next, x), n)
  {
    if n == 0 {
    } else {
      IterShift(next, x, n - 1);
    }
  }

  /** exit's search ends exactly for a process that is on a cycle. */
  lemma SearchEndsIffOnCycle(next: Links, x: nat)
    ensures SearchEnds(next, x) <==> OnCycle(next, x)
  {
    if SearchEnds(next, x) {
      var n: nat :| Next(next, Iter(next, Next(next, x), n)) == x;
      IterShift(next, x, n);
      assert Iter(next, x, n + 2) == x;
    }
    if OnCycle(next, x) {
      var n: nat :| n > 0 && Iter(next, x, n) == x;
      if n == 1 {
        assert Iter(next, x, 0) == x && Next(next, x) == x;
        assert Next(next, Iter(next, Next(next, x), 0)) == x;
      } else {
        IterShift(next, x, n - 2);
        assert Iter(next, x, n - 1) == Iter(next, Next(next, x), n - 2);
        assert Next(next, Iter(next, Next(next, x), n - 2)) == x;
      }
    }
  }

  /** The search ends within as many steps as there are links, or never. */
  lemma SearchEndsSoonOrNever(next: Links, x: nat)
    requires x != 0 && 0 !in next
    ensures SearchEnds(next, x) <==>
            exists n :: 0 <= n < |next| && Next(next, Iter(next, Next(next, x), n)) == x
  {
    if n: nat :| Next(next, Iter(next, Next(next, x), n)) == x {
      var m := ShortSearch(next, x, n);
    }
  }

  /** A search that takes too long for its links meets a process twice, and the part
      between can be left out. */
  lemma {:induction false} ShortSearch(next: Links, x: nat, n: nat) returns (m: nat)
    requires x != 0 && 0 !in next && Next(next, Iter(next, Next(next, x), n)) == x
    ensures m < |next| && Next(next, Iter(next, Next(next, x), m)) == x
    decreases n
  {
    if n < |next| {
      m := n;
    } else {
      var y := Next(next, x);
      var walk := seq(n + 1, i requires 0 <= i <= n => Iter(next, y, i));
      forall i | 0 <= i < |walk| ensures walk[i] in next.Keys {
        OnTheWay(next, y, i, n);
      }
      var i, j := Repeated(walk, next.Keys);
      Shortcut(next, y, i, j, n);
      m := ShortSearch(next, x, n - (j - i));
    }
  }

  /** Whatever is passed on the way to a process has a link. */
  lemma {:induction false} OnTheWay(next: Links, y: nat, i: nat, n: nat)
    requires i <= n && 0 !in next && Next(next, Iter(next, y, n)) != 0
    ensures Iter(next, y, i) in next
    decreases n
  {
    if i == n {
    } else {
      assert Iter(next, y, n) == Next(next, Iter(next, y, n - 1));
      OnTheWay(next, y, i, n - 1);
    }
  }

  lemma {:induction false} Shortcut(next: Links, y: nat, i: nat, j: nat, n: nat)
    requires i < j <= n && Iter(next, y, i) == Iter(next, y, j)
    ensures Iter(next, y, n - (j - i)) == Iter(next, y, n)
    decreases n
  {
    if n == j {
    } else {
      Shortcut(next, y, i, j, n - 1);
    }
  }

  /** More places than values: two places hold the same. */
  lemma Repeated(s: seq<nat>, values: set<nat>) returns (i: nat, j: nat)
    requires |s| > |values| && forall k :: 0 <= k < |s| ==> s[k] in values
    ensures i < j < |s| && s[i] == s[j]
  {
    if Distinct(s) {
      DistinctCount(s, values);
      assert false;
    }
    i, j :| 0 <= i < j < |s| && s[i] == s[j];
  }

  lemma {:induction false} DistinctCount(s: seq<nat>, values: set<nat>)
    requires Distinct(s) && forall k :: 0 <= k < |s| ==> s[k] in values
    ensures |s| <= |values|
    decreases |s|
  {
    if s == [] {
    } else {
      var x := s[|s| - 1];
      DistinctCount(s[..|s| - 1], values - {x});
    }
  }

  /** On a ring, following the links walks along it. */
  lemma {:induction false} RingIter(next: Links, ring: seq<nat>, n: nat)
    requires Ring(next, ring) && n < |ring|
    ensures Iter(next, ring[0], n) == ring[n]
  {
    if n == 0 {
    } else {
      RingIter(next, ring, n - 1);
    }
  }

  lemma RingSearchEnds(next: Links, ring: seq<nat>)
    requires Ring(next, ring)
    ensures SearchEnds(next, ring[0])
  {
    RingIter(next, ring, |ring| - 1);
    assert Iter(next, ring[0], |ring|) == ring[0];
    assert OnCycle(next, ring[0]);
    SearchEndsIffOnCycle(next, ring[0]);
  }

  // -------------------------------------------------- what the calls mean

  datatype Call = Fork(child: nat) | Yield | Exit

  /** The ring after one call of the process at its head. */
  function RingAfter(ring: seq<nat>, c: Call): seq<nat>
    requires |ring| > 0
  {
    match c
    case Fork(child) => [ring[0], child] + ring[1..]
    case Yield => ring[1..] + [ring[0]]
    case Exit => if |ring| == 1 then ring else ring[1..]
  }

  function Newborn(c: Call): set<nat> { if c.Fork? then {c.child} else {} }

  /** A child is a new record, and only a process with company exits. */
  predicate Allowed(ring: seq<nat>, taken: set<nat>, c: Call) {
    match c
    case Fork(child) => child != 0 && child !in taken
    case Yield => true
    case Exit => |ring| >= 2
  }

  // ---------------------------------------------------------------- the code

  class Scheduler {
    var next: Links
    var first: nat
    var current: nat
    var zombie: nat

    ghost predicate RingValid(ring: seq<nat>)
      reads this
    {
      Ring(next, ring) && ring[0] == current && zombie !in ring
    }

    /** kernProcess: the kernel's own process, alone. */
    constructor (kernel: nat)
      requires kernel != 0
      ensures first == current == kernel && RingValid([kernel]) && next.Keys == {kernel} && zombie == 0
    {
      next := map[kernel := kernel];
      first, current, zombie := kernel, kernel, 0;
    }

    /** userInitProcess puts the first user process at the end of the ring. */
    method Insert(init: nat, ghost ring: seq<nat>)
      requires RingValid(ring) && init != 0 && init !in next && init != zombie
      modifies this`next
      ensures RingValid(ring + [init]) && next.Keys == old(next.Keys) + {init}
    {
      var temp := current;
      ghost var k := 0;
      while Next(next, temp) != current
        invariant 0 <= k < |ring| && temp == ring[k]
        decreases |ring| - k
      {
        assert next[ring[k]] == Succ(ring, k);
        temp := Next(next, temp);
        k := k + 1;
      }
      assert next[ring[k]] == Succ(ring, k);
      next := next[temp := init];
      next := next[init := current];
      ghost var ring' := ring + [init];
      forall i | 0 <= i < |ring'| ensures ring'[i] in next && next[ring'[i]] == Succ(ring', i) {
        if i < |ring| { assert old(next)[ring[i]] == Succ(ring, i); }
      }
    }

    /** The list edit of forkSyscall. */
    method ForkEdit(child: nat)
      requires current in next && child !in next && child != 0
      modifies this`next
      ensures next == old(next)[current := child][child := old(next)[current]]
    {
      var temp := next[current];
      next := next[current := child];
      next := next[child := temp];
    }

    /** yieldSyscall. */
    method YieldEdit()
      requires current in next
      modifies this`current
      ensures current == if next[old(current)] != 0 then next[old(current)] else old(current)
    {
      var n := next[current];
      if n != 0 {
        current := n;
      }
    }

    /** waitpidSyscall: the process behind the caller runs, taken off the list, with
        its own link back to the caller. */
    method WaitEdit(pid: nat)
      requires current in next && next[current] in next
      modifies this`next, this`current
      ensures pid == 0 ==> next == old(next) && current == old(current)
      ensures pid > 0 ==>
                && current == old(next)[old(current)]
                && next == old(next)[current := old(current)][old(current) := old(next)[current]]
    {
      if pid > 0 {
        var parent := current;
        var child := next[current];
        var temp := next[child];
        next := next[child := current];
        next := next[current := temp];
        current := child;
      }
    }

    /** execveSyscall: the new image is linked behind the process after `first`. */
    method ExecEdit(image: nat)
      requires first in next && current in next && image !in next && image != 0
      modifies this`next, this`current
      ensures current == image
      ensures next == ExecLinks(old(next), first, old(current), image)
    {
      var previous := next[first];
      next := next[previous := image];
      next := next[image := next[current]];
      current := image;
    }

    /** switchToRing3. */
    method SwitchTo(init: nat)
      modifies this`current
      ensures current == init
    {
      current := init;
    }

    /** exitSyscall's search for the caller's predecessor. */
    method FindPredecessor() returns (temp: nat)
      requires current in next && SearchEnds(next, current)
      ensures Next(next, temp) == current && exists n: nat :: temp == Iter(next, next[current], n)
    {
      ghost var n: nat :| Next(next, Iter(next, Next(next, current), n)) == current;
      temp := next[current];
      ghost var k: nat := 0;
      while Next(next, temp) != current
        invariant k <= n && temp == Iter(next, next[current], k)
        decreases n - k
      {
        temp := Next(next, temp);
        k := k + 1;
        assert temp == Iter(next, next[current], k);
      }
      assert temp == Iter(next, next[current], k);
    }

    /** exitSyscall: the caller's predecessor is found and linked past it, the caller
        is put behind the zombie, and the next process runs. */
    method ExitEdit()
      requires current != 0 && current in next && SearchEnds(next, current)
      requires zombie != current
      modifies this
      ensures first == old(first)
      ensures exists p: nat ::
                && Next(old(next), p) == old(current)
                && (exists n: nat :: p == Iter(old(next), old(next)[old(current)], n))
                && next == Retired(old(next)[p := old(next)[old(current)]], old(zombie), old(current))
      ensures zombie == if old(zombie) == 0 then old(current) else old(zombie)
      ensures current == if Next(next, old(current)) != 0 then Next(next, old(current)) else old(current)
    {
      var temp := FindPredecessor();
      var c := current;
      next := next[temp := next[c]];
      if zombie == 0 {
        zombie := c;
      } else {
        next := next[zombie := c];
      }
      YieldEdit();
    }
  }

  /** The links after execve; a caller that `first` links to finds its own link gone. */
  function ExecLinks(next: Links, first: nat, current: nat, image: nat): Links
    requires first in next && current in next
  {
    var previous := next[first];
    next[previous := image][image := if current == previous then image else next[current]]
  }

  /** The zombie's link, if there is a zombie, leads to the process that exits. */
  function Retired(next: Links, zombie: nat, x: nat): Links {
    if zombie == 0 then next else next[zombie := x]
  }

  // --------------------------------------------------- runs of the ring

  lemma {:induction false} IterStaysInRing(next: Links, ring: seq<nat>, i: nat, n: nat) returns (j: nat)
    requires Ring(next, ring) && i < |ring|
    ensures j < |ring| && Iter(next, ring[i], n) == ring[j]
  {
    if n == 0 {
      j := i;
    } else {
      var k := IterStaysInRing(next, ring, i, n - 1);
      assert next[ring[k]] == Succ(ring, k);
      j := if k + 1 < |ring| then k + 1 else 0;
    }
  }

  lemma ForkRing(next: Links, ring: seq<nat>, child: nat)
    requires Ring(next, ring) && child != 0 && child !in next
    ensures Ring(next[ring[0] := child][child := next[ring[0]]], RingAfter(ring, Fork(child)))
  {
    var next' := next[ring[0] := child][child := next[ring[0]]];
    var ring' := RingAfter(ring, Fork(child));
    assert next[ring[0]] == Succ(ring, 0);
    forall i | 0 <= i < |ring'| ensures ring'[i] in next' && next'[ring'[i]] == Succ(ring', i) {
      if i >= 2 {
        assert ring'[i] == ring[i - 1] && next[ring[i - 1]] == Succ(ring, i - 1);
      }
    }
    forall i, j | 0 <= i < j < |ring'| ensures ring'[i] != ring'[j] {
      if j >= 2 { assert ring'[j] == ring[j - 1] && ring[j - 1] in next; }
      if i >= 2 { assert ring'[i] == ring[i - 1]; }
    }
  }

  lemma YieldRing(next: Links, ring: seq<nat>)
    requires Ring(next, ring)
    ensures Ring(next, RingAfter(ring, Yield)) && RingAfter(ring, Yield)[0] == next[ring[0]]
  {
    var ring' := RingAfter(ring, Yield);
    assert next[ring[0]] == Succ(ring, 0);
    forall i | 0 <= i < |ring'| ensures ring'[i] in next && next[ring'[i]] == Succ(ring', i) {
      var k := if i + 1 < |ring| then i + 1 else 0;
      assert ring'[i] == ring[k] && next[ring[k]] == Succ(ring, k);
    }
  }

  lemma ExitRing(next: Links, ring: seq<nat>, p: nat, n: nat, zombie: nat)
    requires Ring(next, ring) && |ring| >= 2 && zombie !in ring
    requires Next(next, p) == ring[0] && p == Iter(next, next[ring[0]], n)
    ensures Ring(Retired(next[p := next[ring[0]]], zombie, ring[0]), ring[1..])
    ensures Next(Retired(next[p := next[ring[0]]], zombie, ring[0]), ring[0]) == ring[1]
    ensures zombie != 0 ==> Next(Retired(next[p := next[ring[0]]], zombie, ring[0]), zombie) == ring[0]
    ensures forall x :: x !in ring && (zombie == 0 || x != zombie) ==>
              Next(Retired(next[p := next[ring[0]]], zombie, ring[0]), x) == Next(next, x)
  {
    assert next[ring[0]] == Succ(ring, 0) == ring[1];
    var j := IterStaysInRing(next, ring, 1, n);
    assert next[ring[j]] == Succ(ring, j);
    assert j == |ring| - 1;
    var next' := Retired(next[p := ring[1]], zombie, ring[0]);
    var ring' := ring[1..];
    forall i | 0 <= i < |ring'| ensures ring'[i] in next' && next'[ring'[i]] == Succ(ring', i) {
      assert ring'[i] == ring[i + 1] && next[ring[i + 1]] == Succ(ring, i + 1);
    }
  }

  /** The ring after execve by process `i` of a ring that `first` ends: the new image stands
      where the caller stood, in front of the process that `first` links to, and the caller
      and all between the two are off the ring.  That process itself, when it calls, is off
      it, too. */
  function ExecRingOf(ring: seq<nat>, i: nat, image: nat): seq<nat>
    requires i < |ring|
  {
    if i == 0 then [image] else [image] + ring[i + 1..] + [ring[0]]
  }

  lemma ExecRing(next: Links, ring: seq<nat>, i: nat, image: nat)
    requires Ring(next, ring) && i < |ring| && image != 0 && image !in next
    ensures ring[|ring| - 1] in next && ring[i] in next
    ensures Ring(ExecLinks(next, ring[|ring| - 1], ring[i], image), ExecRingOf(ring, i, image))
  {
    hide ExecLinks;
    assert forall k :: 0 <= k < |ring| ==> ring[k] in next;
    ExecDistinct(next, ring, i, image);
    hide ExecRingOf, Succ;
    var ring' := ExecRingOf(ring, i, image);
    forall j | 0 <= j < |ring'|
      ensures var next' := ExecLinks(next, ring[|ring| - 1], ring[i], image);
              ring'[j] in next' && next'[ring'[j]] == Succ(ring', j)
    {
      ExecLink(next, ring, i, image, j);
    }
  }

  lemma ExecDistinct(next: Links, ring: seq<nat>, i: nat, image: nat)
    requires Ring(next, ring) && i < |ring| && image != 0 && image !in next
    ensures Distinct(ExecRingOf(ring, i, image)) && 0 !in ExecRingOf(ring, i, image)
    ensures |ExecRingOf(ring, i, image)| > 0
  {
    var ring' := ExecRingOf(ring, i, image);
    assert forall k :: 0 <= k < |ring| ==> ring[k] in next && ring[k] != image && ring[k] in ring;
    forall j | 0 < j < |ring'| - 1 ensures ring'[j] == ring[i + j] { }
  }

  /** One link of it. */
  lemma ExecLink(next: Links, ring: seq<nat>, i: nat, image: nat, j: nat)
    requires Ring(next, ring) && i < |ring| && image != 0 && image !in next && j < |ExecRingOf(ring, i, image)|
    ensures ring[|ring| - 1] in next && ring[i] in next
    ensures var next', ring' := ExecLinks(next, ring[|ring| - 1], ring[i], image), ExecRingOf(ring, i, image);
            ring'[j] in next' && next'[ring'[j]] == Succ(ring', j)
  {
    hide Distinct;
    var n, ring' := |ring| - 1, ExecRingOf(ring, i, image);
    assert next[ring[n]] == Succ(ring, n) == ring[0] && next[ring[i]] == Succ(ring, i);
    if i == 0 {
    } else if j == 0 {
      OtherPlace(ring, i, 0);
    } else if j < |ring'| - 1 {
      assert ring'[j] == ring[i + j] && next[ring[i + j]] == Succ(ring, i + j);
      OtherPlace(ring, i + j, 0);
    }
  }

  lemma OtherPlace(ring: seq<nat>, i: nat, j: nat)
    requires Distinct(ring) && i < |ring| && j < |ring| && i != j
    ensures ring[i] != ring[j]
  { }

  /** One call by the running process. */
  method Act(s: Scheduler, c: Call, ghost ring: seq<nat>)
    requires s.RingValid(ring) && Allowed(ring, s.next.Keys + {s.zombie}, c)
    modifies s
    ensures s.RingValid(RingAfter(ring, c)) && s.first == old(s.first)
    ensures s.next.Keys + {s.zombie} <= old(s.next.Keys + {s.zombie}) + Newborn(c) + {old(s.current)}
  {
    assert s.next[ring[0]] == Succ(ring, 0);
    match c {
      case Fork(child) =>
        ForkRing(s.next, ring, child);
        s.ForkEdit(child);
      case Yield =>
        YieldRing(s.next, ring);
        s.YieldEdit();
      case Exit =>
        ghost var next0, zombie0 := s.next, s.zombie;
        RingSearchEnds(s.next, ring);
        s.ExitEdit();
        ghost var p: nat :|
          && Next(next0, p) == ring[0]
          && (exists n: nat :: p == Iter(next0, next0[ring[0]], n))
          && s.next == Retired(next0[p := next0[ring[0]]], zombie0, ring[0]);
        ghost var n: nat :| p == Iter(next0, next0[ring[0]], n);
        ExitRing(next0, ring, p, n, zombie0);
        assert ring[1] in ring;
    }
  }

  function RingRun(ring: seq<nat>, calls: seq<Call>): seq<nat>
    requires |ring| > 0
    decreases |calls|
  {
    if calls == [] then ring else RingRun(RingAfter(ring, calls[0]), calls[1..])
  }

  /** Every child is new, and nobody exits alone. */
  ghost predicate AllAllowed(ring: seq<nat>, taken: set<nat>, calls: seq<Call>)
    requires |ring| > 0
    decreases |calls|
  {
    calls == [] ||
    (&& Allowed(ring, taken, calls[0])
     && AllAllowed(RingAfter(ring, calls[0]), taken + Newborn(calls[0]), calls[1..]))
  }

  lemma {:induction false} AllowedWithFewer(ring: seq<nat>, taken: set<nat>, fewer: set<nat>, calls: seq<Call>)
    requires |ring| > 0 && fewer <= taken && AllAllowed(ring, taken, calls)
    ensures AllAllowed(ring, fewer, calls)
    decreases |calls|
  {
    if calls == [] {
    } else {
      var more := Newborn(calls[0]);
      AllowedWithFewer(RingAfter(ring, calls[0]), taken + more, fewer + more, calls[1..]);
    }
  }

  /** For every run of forks, yields and exits, the links stay one cycle over exactly
      the live processes, in the order the calls prescribe. */
  method Execute(s: Scheduler, calls: seq<Call>, ghost ring: seq<nat>)
    requires s.RingValid(ring) && AllAllowed(ring, s.next.Keys + {s.zombie}, calls)
    modifies s
    ensures s.RingValid(RingRun(ring, calls)) && s.first == old(s.first)
  {
    ghost var cur := ring;
    var i := 0;
    while i < |calls|
      invariant 0 <= i <= |calls| && |cur| > 0
      invariant s.RingValid(cur) && s.first == old(s.first)
      invariant AllAllowed(cur, s.next.Keys + {s.zombie}, calls[i..])
      invariant RingRun(ring, calls) == RingRun(cur, calls[i..])
    {
      assert calls[i..][1..] == calls[i + 1..];
      ghost var c := calls[i];
      ghost var taken := s.next.Keys + {s.zombie};
      assert s.current in s.next.Keys by { assert cur[0] in s.next; }
      Act(s, calls[i], cur);
      AllowedWithFewer(RingAfter(cur, c), taken + Newborn(c), s.next.Keys + {s.zombie}, calls[i + 1..]);
      cur := RingAfter(cur, c);
      i := i + 1;
    }
  }

  // ----------------------------------------------------- the shell's protocol

  /** The shell runs, and the kernel's process links to it; the shell links anywhere. */
  ghost predicate AtShell(s: Scheduler, kernel: nat, shell: nat)
    reads s
  {
    && kernel != 0 && shell != 0 && kernel != shell
    && s.first == kernel && s.current == shell
    && kernel in s.next && s.next[kernel] == shell
    && shell in s.next
    && s.zombie != kernel && s.zombie != shell
  }

  /** That is so on every ring that the shell heads and the kernel's process ends. */
  lemma RingAtShell(s: Scheduler, ring: seq<nat>)
    requires s.RingValid(ring) && |ring| >= 2 && s.first == ring[|ring| - 1]
    ensures AtShell(s, s.first, s.current)
  {
    assert s.next[ring[|ring| - 1]] == Succ(ring, |ring| - 1) == ring[0];
    assert ring[0] in s.next && ring[0] in ring && ring[|ring| - 1] in ring;
  }

  /** Start-up: the kernel's process, the shell behind it, and control in the shell. */
  method StartShell(kernel: nat, shell: nat) returns (s: Scheduler)
    requires kernel != 0 && shell != 0 && kernel != shell
    ensures fresh(s) && s.RingValid([shell, kernel]) && AtShell(s, kernel, shell)
    ensures s.next.Keys == {kernel, shell} && s.zombie == 0
  {
    s := new Scheduler(kernel);
    s.Insert(shell, [kernel]);
    YieldRing(s.next, [kernel] + [shell]);
    assert RingAfter([kernel] + [shell], Yield) == [shell, kernel];
    assert s.next[kernel] == shell by { assert s.next[([kernel] + [shell])[0]] == Succ([kernel] + [shell], 0); }
    s.SwitchTo(shell);
    RingAtShell(s, [shell, kernel]);
  }

  /** Following the links from `x` meets `ring` only. */
  ghost predicate Confined(next: Links, x: nat, ring: seq<nat>) {
    forall n: nat :: Iter(next, x, n) in ring
  }

  lemma RingConfines(next: Links, ring: seq<nat>)
    requires Ring(next, ring)
    ensures Confined(next, ring[0], ring)
  {
    forall n: nat ensures Iter(next, ring[0], n) in ring {
      var j := IterStaysInRing(next, ring, 0, n);
    }
  }

  /** The shell forks and waits, and the child loads a program.  Whatever was on the ring,
      the program and the shell are now a ring of two, and every other process is lost. */
  method Launch(s: Scheduler, kernel: nat, shell: nat, child: nat, image: nat, pid: nat)
    requires AtShell(s, kernel, shell) && pid > 0
    requires child != 0 && image != 0 && child != image && child !in s.next && image !in s.next
    requires s.zombie != child && s.zombie != image
    modifies s
    ensures s.RingValid([image, shell]) && Confined(s.next, s.current, [image, shell])
    ensures s.first == kernel && kernel in s.next && s.next[kernel] == shell && s.zombie == old(s.zombie)
    ensures s.next.Keys == old(s.next.Keys) + {child, image}
  {
    s.ForkEdit(child);
    s.WaitEdit(pid);
    assert s.current == child && s.next[child] == shell;
    s.ExecEdit(image);
    assert Ring(s.next, [image, shell]) by {
      assert s.next[image] == Succ([image, shell], 0) && s.next[shell] == Succ([image, shell], 1);
    }
    RingConfines(s.next, [image, shell]);
  }

  /** One command: the program is launched and exits.  The search in exit ends, and the
      shell runs again, alone. */
  method ShellCycle(s: Scheduler, kernel: nat, shell: nat, child: nat, image: nat, pid: nat)
    requires AtShell(s, kernel, shell) && pid > 0
    requires child != 0 && image != 0 && child != image && child !in s.next && image !in s.next
    requires s.zombie != child && s.zombie != image
    modifies s
    ensures AtShell(s, kernel, shell) && s.RingValid([shell]) && Confined(s.next, shell, [shell])
    ensures s.next.Keys == old(s.next.Keys) + {child, image} + if old(s.zombie) == 0 then {} else {old(s.zombie)}
    ensures s.zombie == if old(s.zombie) == 0 then image else old(s.zombie)
  {
    Launch(s, kernel, shell, child, image, pid);
    ghost var ring, next0, zombie0 := [image, shell], s.next, s.zombie;
    RingSearchEnds(s.next, ring);
    s.ExitEdit();
    ghost var p: nat :|
      && Next(next0, p) == image
      && (exists n: nat :: p == Iter(next0, next0[image], n))
      && s.next == Retired(next0[p := next0[image]], zombie0, image);
    ghost var n: nat :| p == Iter(next0, next0[image], n);
    ExitRing(next0, ring, p, n, zombie0);
    assert Ring(s.next, [shell]) by { assert ring[1..] == [shell]; }
    assert s.next[shell] == Succ([shell], 0);
    assert p == shell;
    RingConfines(s.next, [shell]);
  }

  /** A process left running behind the shell is not reached after the next command:
      from start-up, a fork that is not waited for, then one command. */
  method BackgroundIsLost(kernel: nat, shell: nat, background: nat, child: nat, image: nat, pid: nat)
    returns (s: Scheduler)
    requires Distinct([kernel, shell, background, child, image]) && 0 !in [kernel, shell, background, child, image]
    requires pid > 0
    ensures background in s.next && forall n: nat :: Iter(s.next, s.current, n) != background
  {
    var names := [kernel, shell, background, child, image];
    assert forall i, j :: 0 <= i < j < 5 ==> names[i] != names[j];
    assert forall i :: 0 <= i < 5 ==> names[i] in names;
    assert names[0] == kernel && names[1] == shell && names[2] == background && names[3] == child && names[4] == image;
    s := StartShell(kernel, shell);
    Act(s, Fork(background), [shell, kernel]);
    assert RingAfter([shell, kernel], Fork(background)) == [shell, background, kernel];
    RingAtShell(s, [shell, background, kernel]);
    assert background in s.next by { assert [shell, background, kernel][1] in s.next; }
    ShellCycle(s, kernel, shell, child, image, pid);
  }

  /** Control returns to the shell after any number of commands. */
  method ShellRun(s: Scheduler, kernel: nat, shell: nat, children: seq<nat>, images: seq<nat>, pids: seq<nat>)
    requires AtShell(s, kernel, shell) && s.zombie in s.next.Keys + {0}
    requires |children| == |images| == |pids| && forall i :: 0 <= i < |pids| ==> pids[i] > 0
    requires Distinct(children + images) && 0 !in children + images
    requires forall x :: x in children + images ==> x !in s.next
    modifies s
    ensures AtShell(s, kernel, shell) && Next(s.next, s.first) == shell == s.current
  {
    ghost var all := children + images;
    var i := 0;
    while i < |children|
      invariant 0 <= i <= |children|
      invariant AtShell(s, kernel, shell)
      invariant s.zombie == 0 || s.zombie in old(s.next.Keys) || exists j :: 0 <= j < i && s.zombie == images[j]
      invariant forall j :: i <= j < |children| ==> children[j] !in s.next && images[j] !in s.next
    {
      ghost var zombie0 := s.zombie;
      assert children[i] == all[i] && images[i] == all[|children| + i];
      forall j | i <= j < |children| ensures children[j] != zombie0 && images[j] != zombie0 {
        assert children[j] == all[j] && images[j] == all[|children| + j];
        assert children[j] in all && images[j] in all;
        if k :| 0 <= k < i && zombie0 == images[k] { assert images[k] == all[|children| + k]; }
      }
      ShellCycle(s, kernel, shell, children[i], images[i], pids[i]);
      forall j | i < j < |children| ensures children[j] !in s.next && images[j] !in s.next {
        assert children[j] == all[j] && images[j] == all[|children| + j];
      }
      i := i + 1;
    }
  }

  /** A child that is waited for and exits without loading a program is off every
      cycle: the search of exit goes on for ever.  The list itself is as before. */
  method WaitedChildCannotExit(s: Scheduler, child: nat, pid: nat, ghost ring: seq<nat>)
    requires s.RingValid(ring) && child != 0 && child !in s.next && pid > 0
    modifies s
    ensures s.current == child && Ring(s.next, ring) && !SearchEnds(s.next, s.current)
  {
    assert s.next[ring[0]] == Succ(ring, 0);
    s.ForkEdit(child);
    s.WaitEdit(pid);
    assert s.next == old(s.next)[child := ring[0]];
    forall i | 0 <= i < |ring| ensures ring[i] in s.next && s.next[ring[i]] == Succ(ring, i) {
      assert old(s.next)[ring[i]] == Succ(ring, i);
    }
    forall n: nat ensures Next(s.next, Iter(s.next, Next(s.next, child), n)) != child {
      var j := IterStaysInRing(s.next, ring, 0, n + 1);
      assert ring[j] in old(s.next);
    }
  }

  // -------------------------------------------------------------------- pids

  /** getPID: the least number not in use, which is in use from then on; -1, read as
      unsigned, when all are taken. */
  method GetPID(pID: array<bool>) returns (pid: nat)
    modifies pID
    ensures pid == 0xFFFF_FFFF_FFFF_FFFF || (pid < pID.Length && !old(pID[pid]) && pID[pid])
    ensures pid < pID.Length ==> forall j :: 0 <= j < pid ==> old(pID[j])
    ensures pid >= pID.Length ==> forall j :: 0 <= j < pID.Length ==> old(pID[j])
    ensures forall j :: 0 <= j < pID.Length && j != pid ==> pID[j] == old(pID[j])
  {
    var i := 0;
    while i < pID.Length
      invariant 0 <= i <= pID.Length
      invariant forall j :: 0 <= j < i ==> pID[j]
      invariant forall j :: 0 <= j < pID.Length ==> pID[j] == old(pID[j])
    {
      if !pID[i] {
        pID[i] := true;
        return i;
      }
      i := i + 1;
    }
    return 0xFFFF_FFFF_FFFF_FFFF;
  }
}
