/** The file system index over a ustar archive (sys/tarfs.c, and open and readdir in
    sys/syscall.c; the format is the "ustar Interchange Format" of the pax utility in
    POSIX.1).  The archive is a sequence of characters in blocks of 512. */
module Tarfs {
  import opened Integers

  const BLOCK: nat := 512
  const NAME_AT: nat := 0
  const SIZE_AT: nat := 124
  const TYPE_AT: nat := 156
  const MAGIC_AT: nat := 257

  /** The C string at offset `o`. */
  function CStr(img: string, o: nat): (s: string)
    ensures s != "" ==> o + |s| <= |img| && s == img[o..o + |s|]
    decreases |img| - o
  {
    if o >= |img| || img[o] == '\0' then "" else
    var t := CStr(img, o + 1);
    assert t != "" ==> img[o..o + 1 + |t|] == [img[o]] + img[o + 1..o + 1 + |t|];
    [img[o]] + t
  }

  lemma {:induction false} CStrIs(img: string, o: nat, s: string)
    requires o + |s| < |img| && img[o..o + |s|] == s && img[o + |s|] == '\0' && '\0' !in s
    ensures CStr(img, o) == s
    decreases |s|
  {
    if s == "" {
    } else {
      assert img[o] == s[0];
      assert img[o + 1..o + 1 + |s[1..]|] == s[1..];
      CStrIs(img, o + 1, s[1..]);
    }
  }

  // ------------------------------------------------------------ octal sizes

  function Pow8(n: nat): (r: nat)
    ensures r > 0
  {
    if n == 0 then 1 else 8 * Pow8(n - 1)
  }

  /** The number written by octal digits, most significant first. */
  function OctValue(s: string): int
    decreases |s|
  {
    if s == "" then 0 else 8 * OctValue(s[..|s| - 1]) + (s[|s| - 1] as int - '0' as int)
  }

  /** `n` written with `width` octal digits. */
  function Octal(n: nat, width: nat): (s: string)
    ensures |s| == width && forall i :: 0 <= i < width ==> '0' <= s[i] <= '7'
    decreases width
  {
    if width == 0 then "" else Octal(n / 8, width - 1) + [(n % 8 + 48) as char]
  }

  lemma {:induction false} OctalRoundTrip(n: nat, width: nat)
    requires n < Pow8(width)
    ensures OctValue(Octal(n, width)) == n
    decreases width
  {
    if width == 0 {
    } else {
      var s := Octal(n, width);
      assert s[..|s| - 1] == Octal(n / 8, width - 1);
      OctalRoundTrip(n / 8, width - 1);
    }
  }

  /** Digits count eightfold to the left, and '0' to '7' are worth 0 to 7. */
  lemma OctalDigit(s: string, d: nat)
    requires d < 8
    ensures OctValue("") == 0 && OctValue(s + ["01234567"[d]]) == 8 * OctValue(s) + d
  {
    assert (s + ["01234567"[d]])[..|s|] == s;
  }

  /** Taking in a digit on the left, as oct2bin does. */
  lemma {:induction false} OctLeft(s: string, c: char)
    ensures OctValue([c] + s) == (c as int - '0' as int) * Pow8(|s|) + OctValue(s)
    decreases |s|
  {
    if s == "" {
      assert [c] + s == [c] && [c][..0] == "";
    } else {
      var t := [c] + s;
      assert t[..|t| - 1] == [c] + s[..|s| - 1];
      OctLeft(s[..|s| - 1], c);
    }
  }

  lemma {:induction false} OctSuffix(s: string, j: nat)
    requires j <= |s| && forall i :: 0 <= i < |s| ==> '0' <= s[i] <= '7'
    ensures 0 <= OctValue(s[j..]) <= OctValue(s)
    decreases j
  {
    if j == 0 {
      assert s[0..] == s;
      OctNonneg(s);
    } else {
      OctSuffix(s, j - 1);
      OctNonneg(s[j..]);
      OctDrop(s[j - 1], s[j..], s[j - 1..]);
    }
  }

  lemma OctDrop(c: char, s: string, t: string)
    requires '0' <= c && t == [c] + s
    ensures OctValue(s) <= OctValue(t)
  {
    hide OctValue, Pow8;
    OctLeft(s, c);
    assert (c as int - '0' as int) * Pow8(|s|) >= 0;
  }

  lemma {:induction false} OctNonneg(s: string)
    requires forall i :: 0 <= i < |s| ==> '0' <= s[i] <= '7'
    ensures OctValue(s) >= 0
    decreases |s|
  {
    if s == "" {
    } else {
      OctNonneg(s[..|s| - 1]);
    }
  }

  /** oct2bin on the 11 digits at `o`.  For a size that fits an int no partial sum
      leaves the range of int; the factor does so only after its last use. */
  method Oct2Bin(img: string, o: nat) returns (x: int)
    requires o + 11 <= |img| && forall i :: o <= i < o + 11 ==> '0' <= img[i] <= '7'
    requires OctValue(img[o..o + 11]) < TWO31
    ensures x == OctValue(img[o..o + 11]) && 0 <= x
  {
    ghost var s := img[o..o + 11];
    x := 0;
    var k := 1;
    var j := 10;
    assert s[11..] == "";
    while j >= 0
      invariant -1 <= j <= 10
      invariant k == Pow8(10 - j)
      invariant x == OctValue(s[j + 1..]) && 0 <= x < TWO31
    {
      OctSuffix(s, j);
      assert s[j..] == [s[j]] + s[j + 1..];
      OctLeft(s[j + 1..], s[j]);
      x := x + (img[o + j] as int - '0' as int) * k;
      k := k * 8;
      j := j - 1;
    }
    assert s[0..] == s;
  }

  // ---------------------------------------------------------- archive walks

  datatype Kind = FILE | DIRECTORY

  /** What the kernel takes from a header, and where the header stands. */
  datatype Entry = Entry(name: string, kind: Kind, size: nat, start: nat)

  function RoundUp(size: nat): nat {
    if size % BLOCK != 0 then (size / BLOCK) * BLOCK + BLOCK else size
  }

  /** The least multiple of the block length that is not smaller. */
  lemma RoundUpIsLeast(size: nat)
    ensures RoundUp(size) % 512 == 0 && size <= RoundUp(size) < size + 512
  { }

  predicate Marked(img: string, o: nat) { CStr(img, o + MAGIC_AT) == "ustar" }

  /** A header whose size field the kernel can read. */
  predicate SizeOk(img: string, o: nat) {
    && o + SIZE_AT + 11 <= |img|
    && (forall i :: o + SIZE_AT <= i < o + SIZE_AT + 11 ==> '0' <= img[i] <= '7')
    && 0 <= OctValue(img[o + SIZE_AT..o + SIZE_AT + 11]) < TWO31
  }

  function EntryAt(img: string, o: nat): Entry
    requires SizeOk(img, o)
  {
    Entry(CStr(img, o + NAME_AT), if CStr(img, o + TYPE_AT) == "5" then DIRECTORY else FILE,
          OctValue(img[o + SIZE_AT..o + SIZE_AT + 11]), o)
  }

  /** The fields of a header block, at the places of the ustar format. */
  lemma EntryFields(img: string, o: nat)
    requires SizeOk(img, o)
    ensures o + 135 <= |img| && EntryAt(img, o).size == OctValue(img[o + 124..o + 135])
    ensures EntryAt(img, o).name == CStr(img, o) && EntryAt(img, o).start == o
    ensures EntryAt(img, o).kind == DIRECTORY <==> CStr(img, o + 156) == "5"
    ensures Marked(img, o) <==> CStr(img, o + 257) == "ustar"
  { }

  /** The image is a readable archive from `o` on. */
  ghost predicate Readable(img: string, o: nat)
    decreases |img| - o
  {
    Marked(img, o) ==>
      SizeOk(img, o) && o < |img| && Readable(img, o + BLOCK + RoundUp(EntryAt(img, o).size))
  }

  /** The headers met from `o` on, in order. */
  ghost function Entries(img: string, o: nat): seq<Entry>
    requires Readable(img, o)
    decreases |img| - o
  {
    if !Marked(img, o) then [] else
    [EntryAt(img, o)] + Entries(img, o + BLOCK + RoundUp(EntryAt(img, o).size))
  }

  /** One step of a walk: entry `n` of the list stands here, the rest behind it. */
  lemma WalkStep(img: string, o: nat, es: seq<Entry>, n: nat)
    requires Readable(img, o) && n <= |es| && es[n..] == Entries(img, o) && Marked(img, o)
    ensures n < |es| && o < |img| && SizeOk(img, o) && es[n] == EntryAt(img, o)
    ensures var next := o + BLOCK + RoundUp(EntryAt(img, o).size);
            Readable(img, next) && es[n + 1..] == Entries(img, next)
  {
    hide CStr, OctValue, Marked, SizeOk, EntryAt, RoundUp;
    assert es[n..][1..] == es[n + 1..];
    assert es[n..][0] == es[n];
  }

  lemma WalkEnd(img: string, o: nat, es: seq<Entry>, n: nat)
    requires Readable(img, o) && n <= |es| && es[n..] == Entries(img, o) && !Marked(img, o)
    ensures n == |es|
  { }

  // --------------------------------------------------------------- the index

  /** The length of the buffers for names, the final NUL included. */
  const NAME_MAX: nat := 100

  datatype Node = Node(name: string, kind: Kind, size: nat, start: nat, parent: nat)

  /** Slot 0 of the table, which stands for the top. */
  const TOP := Node("", FILE, 0, 0, 0)

  /** The node for an entry, but for its parent; directories get size 0. */
  function NodeOf(e: Entry): Node {
    Node(e.name, e.kind, if e.kind.DIRECTORY? then 0 else e.size, e.start, 0)
  }

  /** The last slash of `path` at or before index `i`, not counting index 0; else 0. */
  function SlashBefore(path: string, i: nat): (j: nat)
    requires i < |path|
    ensures j <= i && (j > 0 ==> path[j] == '/') && forall k :: j < k <= i ==> path[k] != '/'
  {
    if i == 0 then 0 else if path[i] == '/' then i else SlashBefore(path, i - 1)
  }

  /** The directory that holds `path`, with its final slash; "" at the top.  The final
      character is skipped, because directories end in a slash. */
  function ParentName(path: string): string
    requires |path| >= 3
  {
    var j := SlashBefore(path, |path| - 2);
    if j == 0 then "" else path[..j + 1]
  }

  /** The directory of a file or of a directory is what stands before the last name; a slash
      in front alone makes none. */
  lemma ParentIs(d: string, base: string)
    requires d == "" || (|d| >= 2 && d[|d| - 1] == '/')
    requires base != "" && '/' !in base
    ensures |d + base| >= 3 ==> ParentName(d + base) == d
    ensures |d + base + "/"| >= 3 ==> ParentName(d + base + "/") == d
    ensures |base| >= 2 ==> ParentName("/" + base) == ""
  {
    if |base| >= 2 {
      assert forall k :: 1 <= k < |base| + 1 ==> ("/" + base)[k] == base[k - 1];
    }
    if |d + base| >= 3 { LastSlash(d + base, d, base); }
    if |d + base + "/"| >= 3 { LastSlash(d + base + "/", d, base); }
  }

  lemma LastSlash(path: string, d: string, base: string)
    requires |path| >= 3 && (path == d + base || path == d + base + "/") && base != "" && '/' !in base
    requires d == "" || (|d| >= 2 && d[|d| - 1] == '/')
    ensures ParentName(path) == d
  {
    var j := SlashBefore(path, |path| - 2);
    assert path[..|d|] == d;
    forall k | |d| <= k <= |path| - 2 ensures path[k] != '/' {
      if k - |d| < |base| { assert path[k] == base[k - |d|]; }
    }
    if d != "" { assert path[|d| - 1] == '/'; }
  }

  function FindNode(root: seq<Node>, name: string, i: nat): (j: nat)
    requires i <= |root|
    ensures i <= j <= |root| && (j < |root| ==> root[j].name == name)
    ensures forall k :: i <= k < j ==> root[k].name != name
    decreases |root| - i
  {
    if i == |root| || root[i].name == name then i else FindNode(root, name, i + 1)
  }

  /** The table after one entry: an entry whose directory is not there is dropped. */
  function AddNode(root: seq<Node>, n: Node): seq<Node>
    requires |root| > 0 && |n.name| >= 3
  {
    var p := ParentName(n.name);
    if p == "" then root + [n.(parent := 0)] else
    var j := FindNode(root, p, 1);
    if j < |root| then root + [n.(parent := j)] else root
  }

  /** Names that fit the kernel's buffer and that it does not read before. */
  predicate ProperNames(es: seq<Entry>) { forall k :: 0 <= k < |es| ==> 3 <= |es[k].name| < NAME_MAX }

  function Build(es: seq<Entry>): (root: seq<Node>)
    requires ProperNames(es)
    ensures 0 < |root| <= |es| + 1 && root[0] == TOP
    decreases |es|
  {
    if es == [] then [TOP] else AddNode(Build(es[..|es| - 1]), NodeOf(es[|es| - 1]))
  }

  class Index {
    var root: seq<Node>

    constructor ()
      ensures root == [TOP]
    {
      root := [TOP];
    }

    /** parse: finds the directory part of the path, then the node of that directory. */
    method Parse(path: string, kind: Kind, start: nat, size: nat)
      requires 3 <= |path| < NAME_MAX && 0 < |root| < 512
      modifies this
      ensures root == AddNode(old(root), Node(path, kind, size, start, 0))
    {
      var len := |path| - 2;
      while path[len] != '/'
        invariant 1 <= len <= |path| - 2
        invariant SlashBefore(path, |path| - 2) == SlashBefore(path, len)
        invariant root == old(root)
        decreases len
      {
        len := len - 1;
        if len == 0 {
          root := root + [Node(path, kind, size, start, 0)];
          return;
        }
      }
      var name := path[..len + 1];
      var j := 1;
      while j < |root| && root[j].name != name
        invariant 1 <= j <= |root|
        invariant root == old(root)
        invariant FindNode(root, name, 1) == FindNode(root, name, j)
      {
        j := j + 1;
      }
      if j < |root| {
        root := root + [Node(path, kind, size, start, j)];
      }
    }

    /** One round of init_tarfs. */
    method Take(img: string, start: nat) returns (next: nat)
      requires SizeOk(img, start) && 3 <= |EntryAt(img, start).name| < NAME_MAX && 0 < |root| < 512
      modifies this
      ensures root == AddNode(old(root), NodeOf(EntryAt(img, start)))
      ensures next == start + BLOCK + RoundUp(EntryAt(img, start).size)
    {
      hide OctValue, CStr, AddNode;
      var size := Oct2Bin(img, start + SIZE_AT);
      if CStr(img, start + TYPE_AT) == "5" {
        Parse(CStr(img, start), DIRECTORY, start, 0);
      } else {
        Parse(CStr(img, start), FILE, start, size);
      }
      if size % 512 != 0 {
        size := (size / 512) * 512 + 512;
      }
      next := start + 512 + size;
    }

    /** init_tarfs: the table is the one built from the entries of the archive. */
    method InitTarfs(img: string)
      requires Readable(img, 0) && ProperNames(Entries(img, 0)) && |Entries(img, 0)| < 511 && root == [TOP]
      modifies this
      ensures ProperNames(Entries(img, 0)) && root == Build(Entries(img, 0))
    {
      hide OctValue, CStr, RoundUp, AddNode, Readable, Entries, SizeOk, EntryAt;
      ghost var es := Entries(img, 0);
      ghost var n := 0;
      var start := 0;
      while CStr(img, start + MAGIC_AT) == "ustar"
        invariant Readable(img, start) && 0 <= n <= |es| && es[n..] == Entries(img, start)
        invariant root == Build(es[..n])
        decreases |img| - start
      {
        WalkStep(img, start, es, n);
        assert es[..n + 1][..n] == es[..n];
        start := Take(img, start);
        n := n + 1;
      }
      WalkEnd(img, start, es, n);
      assert es[..n] == es;
    }
  }

  // ------------------------------------------------------- theorems on the index

  predicate UniqueNames(es: seq<Entry>) {
    forall j, k :: 0 <= j < k < |es| ==> es[j].name != es[k].name
  }

  /** The directory of entry `k` is the top or an earlier entry. */
  ghost predicate HasParent(es: seq<Entry>, k: nat)
    requires ProperNames(es) && k < |es|
  {
    ParentName(es[k].name) == "" || exists j :: 0 <= j < k && es[j].name == ParentName(es[k].name)
  }

  /** Directories precede their contents. */
  ghost predicate DirsFirst(es: seq<Entry>)
    requires ProperNames(es)
  {
    forall k :: 0 <= k < |es| ==> HasParent(es, k)
  }

  /** Node k+1 is that of entry k, and its parent, an earlier node, bears the name of
      its directory. */
  ghost predicate NodeMatches(root: seq<Node>, es: seq<Entry>, k: nat)
    requires ProperNames(es) && k < |es| && k + 1 < |root|
  {
    var n := root[k + 1];
    && n.name == es[k].name && n.kind == es[k].kind && n.start == es[k].start
    && n.size == (if es[k].kind.DIRECTORY? then 0 else es[k].size)
    && n.parent <= k
    && root[n.parent].name == ParentName(es[k].name)
  }

  /** Every node but the top comes from an entry. */
  lemma {:induction false} NodeFromEntry(es: seq<Entry>, i: nat) returns (k: nat)
    requires ProperNames(es) && 0 < i < |Build(es)|
    ensures k < |es| && Build(es)[i].name == es[k].name && Build(es)[i].kind == es[k].kind
    ensures Build(es)[i].start == es[k].start
    ensures Build(es)[i].size == if es[k].kind.DIRECTORY? then 0 else es[k].size
    decreases |es|
  {
    var shorter := es[..|es| - 1];
    if i < |Build(shorter)| {
      k := NodeFromEntry(shorter, i);
      assert es[k] == shorter[k];
    } else {
      k := |es| - 1;
    }
  }

  /** With directories first, every entry gets exactly one node, in order, and the
      parent indices name the immediate directories. */
  lemma {:induction false} BuildComplete(es: seq<Entry>)
    requires ProperNames(es) && DirsFirst(es)
    ensures |Build(es)| == |es| + 1
    ensures forall k :: 0 <= k < |es| ==> NodeMatches(Build(es), es, k)
    decreases |es|
  {
    hide ParentName, AddNode, NodeOf;
    if es == [] {
    } else {
      var n := |es| - 1;
      var shorter := es[..n];
      forall k | 0 <= k < n ensures HasParent(shorter, k) { assert HasParent(es, k); }
      BuildComplete(shorter);
      AddMatches(es, n, Build(shorter));
    }
  }

  /** Adding an entry whose directory is there. */
  lemma AddMatches(es: seq<Entry>, n: nat, before: seq<Node>)
    requires ProperNames(es) && n < |es| && HasParent(es, n) && |before| == n + 1 && before[0] == TOP
    requires ProperNames(es[..n]) && forall k :: 0 <= k < n ==> NodeMatches(before, es[..n], k)
    ensures var after := AddNode(before, NodeOf(es[n]));
            |after| == n + 2 && forall k :: 0 <= k <= n ==> NodeMatches(after, es, k)
  {
    hide ParentName;
    var p := ParentName(es[n].name);
    if p != "" {
      var j :| 0 <= j < n && es[j].name == p;
      assert NodeMatches(before, es[..n], j) && before[j + 1].name == p;
      assert FindNode(before, p, 1) < |before|;
    }
    var after := AddNode(before, NodeOf(es[n]));
    forall k | 0 <= k <= n ensures NodeMatches(after, es, k) {
      if k < n { assert NodeMatches(before, es[..n], k); }
    }
  }

  /** No entry is dropped exactly when directories come first. */
  lemma {:induction false} CompleteIffDirsFirst(es: seq<Entry>)
    requires ProperNames(es)
    ensures |Build(es)| == |es| + 1 <==> DirsFirst(es)
    decreases |es|
  {
    hide ParentName;
    if DirsFirst(es) {
      BuildComplete(es);
    } else if |Build(es)| == |es| + 1 {
      var n := |es| - 1;
      var shorter := es[..n];
      assert |Build(shorter)| == n + 1;
      CompleteIffDirsFirst(shorter);
      BuildComplete(shorter);
      var p := ParentName(es[n].name);
      if p != "" {
        var j := FindNode(Build(shorter), p, 1);
        var k := NodeFromEntry(shorter, j);
        assert es[k].name == p;
      }
      assert HasParent(es, n);
      forall k | 0 <= k < |es| ensures HasParent(es, k) {
        if k < n { assert HasParent(shorter, k); }
      }
    }
  }

  /** An archive whose one file is dropped: its directory has no entry. */
  lemma FileWithoutDirectory(size: nat, start: nat)
    ensures var es := [Entry("bin/ls", FILE, size, start)]; ProperNames(es) && Build(es) == [TOP]
  {
    var e := Entry("bin/ls", FILE, size, start);
    assert [e][..0] == [];
    assert SlashBefore("bin/ls", 4) == 3 && ParentName("bin/ls") == "bin/";
    assert FindNode([TOP], "bin/", 1) == 1;
  }

  // -------------------------------------------------------- looking files up

  /** The first file node named `path` from slot `i` on. */
  function FindFile(root: seq<Node>, path: string, i: nat): (j: nat)
    requires i <= |root|
    ensures i <= j <= |root|
    ensures j < |root| ==> root[j].name == path && root[j].kind == FILE
    ensures forall k :: i <= k < j ==> !(root[k].name == path && root[k].kind == FILE)
    decreases |root| - i
  {
    if i == |root| || (root[i].name == path && root[i].kind == FILE) then i else FindFile(root, path, i + 1)
  }

  /** The first entry named `name`. */
  function FindEntry(es: seq<Entry>, name: string): (k: nat)
    ensures k <= |es| && (k < |es| ==> es[k].name == name)
    ensures forall j :: 0 <= j < k ==> es[j].name != name
    decreases |es|
  {
    if es == [] || es[0].name == name then 0 else
    assert forall j :: 0 < j < |es| ==> es[j] == es[1..][j - 1];
    1 + FindEntry(es[1..], name)
  }

  /** getFile: a plain scan of the archive; the data begins behind the header. */
  method GetFile(img: string, name: string) returns (found: bool, address: nat)
    requires Readable(img, 0)
    ensures found <==> FindEntry(Entries(img, 0), name) < |Entries(img, 0)|
    ensures found ==> address == Entries(img, 0)[FindEntry(Entries(img, 0), name)].start + BLOCK
  {
    hide OctValue, CStr, Readable, Entries;
    ghost var es := Entries(img, 0);
    ghost var n := 0;
    var start := 0;
    while CStr(img, start + MAGIC_AT) == "ustar"
      invariant Readable(img, start) && 0 <= n <= |es| && es[n..] == Entries(img, start)
      invariant forall j :: 0 <= j < n ==> es[j].name != name
      decreases |img| - start
    {
      WalkStep(img, start, es, n);
      var size := Oct2Bin(img, start + SIZE_AT);
      if size % 512 != 0 {
        size := (size / 512) * 512 + 512;
      }
      if CStr(img, start) == name {
        FindEntryIs(es, name, n);
        return true, start + 512;
      }
      start := start + 512 + size;
      n := n + 1;
    }
    WalkEnd(img, start, es, n);
    return false, 0;
  }

  lemma FindEntryIs(es: seq<Entry>, name: string, k: nat)
    requires k < |es| && es[k].name == name && forall j :: 0 <= j < k ==> es[j].name != name
    ensures FindEntry(es, name) == k
  { }

  /** The node that open finds and the address that getFile returns agree. */
  lemma {:induction false} OpenAgreesWithGetFile(es: seq<Entry>, path: string)
    requires ProperNames(es) && UniqueNames(es)
    ensures var i := FindFile(Build(es), path, 1);
            i < |Build(es)| ==>
              && FindEntry(es, path) < |es|
              && Build(es)[i].start + BLOCK == es[FindEntry(es, path)].start + BLOCK
              && Build(es)[i].size == es[FindEntry(es, path)].size
  {
    var i := FindFile(Build(es), path, 1);
    if i < |Build(es)| {
      var k := NodeFromEntry(es, i);
      assert es[k].name == path;
      assert FindEntry(es, path) == k;
    }
  }

  /** With directories first, open finds every file of the archive. */
  lemma {:induction false} OpenFindsEveryFile(es: seq<Entry>, k: nat)
    requires ProperNames(es) && DirsFirst(es) && UniqueNames(es) && k < |es| && es[k].kind == FILE
    ensures FindFile(Build(es), es[k].name, 1) == k + 1 < |Build(es)|
    ensures Build(es)[k + 1].start + BLOCK == es[k].start + BLOCK && FindEntry(es, es[k].name) == k
  {
    BuildComplete(es);
    assert NodeMatches(Build(es), es, k);
    var i := FindFile(Build(es), es[k].name, 1);
    assert i <= k + 1;
    assert NodeMatches(Build(es), es, i - 1);
    var j := FindEntry(es, es[k].name);
    assert j <= k;
  }

  // ----------------------------------------------------------------- readdir

  /** The names readdir prints for directory `d`, from slot `i` on. */
  function Listing(root: seq<Node>, d: nat, i: nat): seq<string>
    requires d < |root| && i <= |root|
    requires forall k :: 0 < k < |root| && root[k].parent == d ==> |root[d].name| <= |root[k].name|
    requires i > 0
    decreases |root| - i
  {
    if i == |root| then [] else
    (if root[i].parent == d then [root[i].name[|root[d].name|..]] else []) + Listing(root, d, i + 1)
  }

  /** The entries directly inside the directory named `dir`, without that prefix. */
  function Inside(es: seq<Entry>, dir: string, k: nat): seq<string>
    requires ProperNames(es) && k <= |es|
    decreases |es| - k
  {
    if k == |es| then [] else
    (if ParentName(es[k].name) == dir then
       assert |dir| <= |es[k].name|; [es[k].name[|dir|..]] else []) + Inside(es, dir, k + 1)
  }

  /** An entry directly inside is listed by its last name, a directory with its slash; an
      entry of another directory is not. */
  lemma InsideShows(es: seq<Entry>, dir: string, k: nat, d: string, base: string)
    requires ProperNames(es) && k < |es| && (es[k].name == d + base || es[k].name == d + base + "/")
    requires d == "" || (|d| >= 2 && d[|d| - 1] == '/')
    requires base != "" && '/' !in base
    ensures d != dir ==> Inside(es, dir, k) == Inside(es, dir, k + 1)
    ensures d == dir && es[k].name == d + base ==> Inside(es, dir, k) == [base] + Inside(es, dir, k + 1)
    ensures d == dir && es[k].name == d + base + "/" ==>
              Inside(es, dir, k) == [base + "/"] + Inside(es, dir, k + 1)
  {
    ParentIs(d, base);
    if es[k].name == d + base {
      assert es[k].name[|d|..] == base;
    } else {
      assert es[k].name[|d|..] == base + "/";
    }
  }

  /** readdirSyscall, with what it prints as its result. */
  method Readdir(root: seq<Node>, d: nat) returns (out: seq<string>)
    requires 0 < |root| && d < |root|
    requires forall k :: 0 < k < |root| && root[k].parent == d ==> |root[d].name| <= |root[k].name|
    ensures out == [".", ".."] + Listing(root, d, 1)
  {
    out := [".", ".."];
    var len := |root[d].name|;
    var i := 1;
    while i < |root|
      invariant 1 <= i <= |root|
      invariant [".", ".."] + Listing(root, d, 1) == out + Listing(root, d, i)
    {
      if root[i].parent == d {
        out := out + [root[i].name[len..]];
      }
      i := i + 1;
    }
  }

  /** A directory's name is a prefix of what lies in it. */
  lemma ChildHasPrefix(es: seq<Entry>, root: seq<Node>, d: nat)
    requires ProperNames(es) && |root| == |es| + 1 && d < |root|
    requires forall k :: 0 <= k < |es| ==> NodeMatches(root, es, k)
    ensures forall k :: 0 < k < |root| && root[k].parent == d ==>
              |root[d].name| <= |root[k].name| && root[k].name[..|root[d].name|] == root[d].name
  {
    forall k | 0 < k < |root| && root[k].parent == d
      ensures |root[d].name| <= |root[k].name| && root[k].name[..|root[d].name|] == root[d].name
    {
      assert NodeMatches(root, es, k - 1);
    }
  }

  /** readdir lists exactly the immediate children, in archive order, with the
      directory's name stripped; slot 0 lists the top. */
  lemma {:induction false} ListingIsInside(es: seq<Entry>, root: seq<Node>, d: nat, k: nat)
    requires ProperNames(es) && UniqueNames(es) && |root| == |es| + 1 && d < |root| && k <= |es| && root[0] == TOP
    requires forall k :: 0 <= k < |es| ==> NodeMatches(root, es, k)
    requires forall k :: 0 < k < |root| && root[k].parent == d ==> |root[d].name| <= |root[k].name|
    ensures Listing(root, d, k + 1) == Inside(es, root[d].name, k)
    decreases |es| - k
  {
    hide ParentName, UniqueNames;
    if k == |es| {
    } else {
      ListingIsInside(es, root, d, k + 1);
      assert NodeMatches(root, es, k);
      SameNameSameNode(es, root, d, root[k + 1].parent);
    }
  }

  lemma SameNameSameNode(es: seq<Entry>, root: seq<Node>, a: nat, b: nat)
    requires ProperNames(es) && UniqueNames(es) && |root| == |es| + 1 && a < |root| && b < |root| && root[0] == TOP
    requires forall k :: 0 <= k < |es| ==> NodeMatches(root, es, k)
    ensures root[a].name == root[b].name <==> a == b
  {
    if a > 0 { assert NodeMatches(root, es, a - 1); }
    if b > 0 { assert NodeMatches(root, es, b - 1); }
  }

  lemma {:induction false} ReaddirListsChildren(es: seq<Entry>, d: nat)
    requires ProperNames(es) && DirsFirst(es) && UniqueNames(es) && d <= |es|
    ensures var root := Build(es);
            && d < |root|
            && (forall k :: 0 < k < |root| && root[k].parent == d ==> |root[d].name| <= |root[k].name|)
            && Listing(root, d, 1) == Inside(es, if d == 0 then "" else es[d - 1].name, 0)
  {
    hide ParentName, UniqueNames, Build, Listing, Inside, DirsFirst;
    BuildComplete(es);
    var root := Build(es);
    ChildHasPrefix(es, root, d);
    ListingIsInside(es, root, d, 0);
    if d > 0 { assert NodeMatches(root, es, d - 1); }
  }

  // ------------------------------------------------------------ descriptors

  const MAX_FD: nat := 30

  /** The slots of the descriptor table that open hands out are 3 to 29. */
  ghost predicate AllTaken(fd: seq<nat>) {
    |fd| > MAX_FD && forall c :: 3 <= c < MAX_FD ==> fd[c] != 0
  }

  /** openSyscall for reading.  `fd` is the descriptor table and, at index 30, the field
      of the process record behind it.  The least unused slot gets the node; when there
      is none the call fails, but has stored into the field behind the table. */
  method Open(root: seq<Node>, path: string, fd: array<nat>) returns (r: int)
    requires |root| > 0 && fd.Length == MAX_FD + 1
    requires forall i :: 0 < i < |root| ==> root[i].name != ""
    modifies fd
    ensures FindFile(root, path, 1) == |root| ==> r == -1 && fd[..] == old(fd[..])
    ensures FindFile(root, path, 1) < |root| && AllTaken(old(fd[..])) ==>
              r == -1 && fd[..] == old(fd[..])[MAX_FD := FindFile(root, path, 1)]
    ensures FindFile(root, path, 1) < |root| && !AllTaken(old(fd[..])) ==>
              && 3 <= r < MAX_FD && old(fd[r]) == 0
              && (forall c :: 3 <= c < r ==> old(fd[c]) != 0)
              && fd[..] == old(fd[..])[r := FindFile(root, path, 1)]
    ensures r == -1 <==>
            || (forall i :: 0 < i < |root| ==> !(root[i].name == path && root[i].kind == FILE))
            || (forall c :: 3 <= c < 30 ==> old(fd[c]) != 0)
  {
    var i := 1;
    while i < |root|
      invariant 1 <= i <= |root| && FindFile(root, path, 1) == FindFile(root, path, i)
      invariant fd[..] == old(fd[..])
    {
      if root[i].name == path && root[i].kind == FILE {
        var count := 3;
        while fd[count] != 0 && count < MAX_FD
          invariant 3 <= count <= MAX_FD && fd[..] == old(fd[..])
          invariant forall c :: 3 <= c < count ==> fd[c] != 0
          decreases MAX_FD - count
        {
          count := count + 1;
        }
        fd[count] := i;
        if count >= MAX_FD {
          return -1;
        }
        return count;
      }
      i := i + 1;
    }
    return -1;
  }

  // ------------------------------------------------------- archive round trip

  datatype Member = Member(name: string, kind: Kind, data: string)

  predicate ValidMember(m: Member) {
    |m.name| < NAME_MAX && '\0' !in m.name && |m.data| < TWO31
  }

  function Zeros(n: nat): (s: string)
    ensures |s| == n && forall i :: 0 <= i < n ==> s[i] == '\0'
  {
    seq(n, _ => '\0')
  }

  /** A field: text filled up with zeros. */
  function Field(s: string, width: nat): (r: string)
    requires |s| < width
    ensures |r| == width && s <= r && r[|s|] == '\0'
  {
    s + Zeros(width - |s|)
  }

  /** A ustar header block; fields the kernel does not read are left empty. */
  function Header(m: Member): string
    requires ValidMember(m)
  {
    Field(m.name, 124) + Field(Octal(|m.data|, 11), 32)
    + Field(if m.kind.DIRECTORY? then "5" else "0", 101) + Field("ustar", 255)
  }

  function Encode(ms: seq<Member>): string
    requires forall k :: 0 <= k < |ms| ==> ValidMember(ms[k])
  {
    if ms == [] then Zeros(2 * BLOCK) else
    Header(ms[0]) + Body(ms[0]) + Encode(ms[1..])
  }

  function EntriesOf(ms: seq<Member>, o: nat): seq<Entry> {
    if ms == [] then [] else
    [Entry(ms[0].name, ms[0].kind, |ms[0].data|, o)] + EntriesOf(ms[1..], o + BLOCK + RoundUp(|ms[0].data|))
  }

  lemma HeaderFields(m: Member)
    requires ValidMember(m)
    ensures var h := Header(m);
            && |h| == BLOCK && h[..|m.name|] == m.name && h[|m.name|] == '\0'
            && h[124..135] == Octal(|m.data|, 11)
            && h[156..157] == (if m.kind.DIRECTORY? then "5" else "0") && h[157] == '\0'
            && h[257..262] == "ustar" && h[262] == '\0'
  {
    hide Octal, Field;
    FieldsApart(Field(m.name, 124), Field(Octal(|m.data|, 11), 32),
                Field(if m.kind.DIRECTORY? then "5" else "0", 101), Field("ustar", 255));
    var h := Header(m);
    FieldReads(h, 0, m.name, 124);
    FieldReads(h, 124, Octal(|m.data|, 11), 32);
    FieldReads(h, 156, if m.kind.DIRECTORY? then "5" else "0", 101);
    FieldReads(h, 257, "ustar", 255);
  }

  lemma FieldsApart(a: string, b: string, c: string, d: string)
    ensures var h := a + b + c + d;
            && |h| == |a| + |b| + |c| + |d|
            && h[..|a|] == a && h[|a|..|a| + |b|] == b
            && h[|a| + |b|..|a| + |b| + |c|] == c && h[|a| + |b| + |c|..] == d
  { }

  lemma FieldReads(h: string, o: nat, s: string, width: nat)
    requires |s| < width && o + width <= |h| && h[o..o + width] == Field(s, width)
    ensures h[o..o + |s|] == s && h[o + |s|] == '\0'
  {
    var f := Field(s, width);
    assert forall i :: 0 <= i < width ==> h[o + i] == f[i];
    assert s == f[..|s|];
  }

  lemma Slice(img: string, o: nat, h: string, i: nat, j: nat)
    requires o + |h| <= |img| && img[o..o + |h|] == h && i <= j < |h|
    ensures img[o + i..o + j] == h[i..j] && img[o + j] == h[j]
  {
    assert forall k :: 0 <= k < |h| ==> img[o + k] == h[k];
  }

  /** The fields as the kernel reads them at offset `o`. */
  lemma HeaderReads(img: string, o: nat, m: Member)
    requires ValidMember(m) && o + BLOCK <= |img| && img[o..o + BLOCK] == Header(m)
    ensures Marked(img, o) && SizeOk(img, o) && EntryAt(img, o) == Entry(m.name, m.kind, |m.data|, o)
  {
    hide Header, Octal, CStr, OctValue;
    HeaderFields(m);
    var h := Header(m);
    Slice(img, o, h, 0, |m.name|);
    CStrIs(img, o, m.name);
    Slice(img, o, h, 156, 157);
    CStrIs(img, o + 156, if m.kind.DIRECTORY? then "5" else "0");
    Slice(img, o, h, 257, 262);
    CStrIs(img, o + 257, "ustar");
    var digits := img[o + 124..o + 135];
    Slice(img, o, h, 124, 135);
    Eleven();
    OctalRoundTrip(|m.data|, 11);
    forall i | o + 124 <= i < o + 135 ensures '0' <= img[i] <= '7' {
      assert img[i] == digits[i - o - 124];
    }
  }

  lemma Eleven()
    ensures TWO31 <= Pow8(11)
  {
    assert Pow8(1) == 8 && Pow8(2) == 64 && Pow8(3) == 512 && Pow8(4) == 4096 && Pow8(5) == 0x8000;
    assert Pow8(6) == 0x4_0000 && Pow8(7) == 0x20_0000 && Pow8(8) == 0x100_0000 && Pow8(9) == 0x800_0000;
  }

  lemma SplitImage(img: string, o: nat, h: string, body: string, rest: string)
    requires o <= |img| && img[o..] == h + body + rest
    ensures o + |h| + |body| + |rest| == |img|
    ensures img[o..o + |h|] == h
    ensures img[o + |h|..o + |h| + |body|] == body
    ensures img[o + |h| + |body|..] == rest
  {
    var s := h + body + rest;
    assert s[..|h|] == h && s[|h|..|h| + |body|] == body && s[|h| + |body|..] == rest;
    assert forall i, j :: 0 <= i <= j <= |s| ==> img[o..][i..j] == img[o + i..o + j];
    assert img[o + |h| + |body|..] == img[o..][|h| + |body|..];
  }

  /** The data of a member, filled up to whole blocks. */
  function Body(m: Member): (s: string)
    ensures |s| == RoundUp(|m.data|) && m.data <= s
  {
    m.data + Zeros(RoundUp(|m.data|) - |m.data|)
  }

  /** An encoded archive with at least one member, cut behind the first. */
  lemma FirstMember(img: string, o: nat, ms: seq<Member>)
    requires forall k :: 0 <= k < |ms| ==> ValidMember(ms[k])
    requires o <= |img| && img[o..] == Encode(ms) && ms != []
    ensures var next := o + BLOCK + RoundUp(|ms[0].data|);
            && next <= |img| && img[next..] == Encode(ms[1..])
            && img[o..o + BLOCK] == Header(ms[0])
            && ms[0].data <= img[o + BLOCK..]
  {
    hide Header, Body, RoundUp;
    var h, body, rest := Header(ms[0]), Body(ms[0]), Encode(ms[1..]);
    HeaderFields(ms[0]);
    SplitImage(img, o, h, body, rest);
    hide Encode;
    assert img[o + BLOCK..o + BLOCK + |body|] <= img[o + BLOCK..];
  }

  /** The walk over an encoded archive visits exactly the members, in order. */
  lemma {:induction false} WalkVisitsMembers(img: string, o: nat, ms: seq<Member>)
    requires forall k :: 0 <= k < |ms| ==> ValidMember(ms[k])
    requires o <= |img| && img[o..] == Encode(ms)
    ensures Readable(img, o) && Entries(img, o) == EntriesOf(ms, o)
    decreases |ms|
  {
    hide Header, Body, CStr, OctValue, RoundUp, Marked, SizeOk, EntryAt, Encode;
    if ms == [] {
      EndMark(img, o);
    } else {
      FirstMember(img, o, ms);
      HeaderReads(img, o, ms[0]);
      WalkVisitsMembers(img, o + BLOCK + RoundUp(|ms[0].data|), ms[1..]);
    }
  }

  /** Two empty blocks end the walk. */
  lemma EndMark(img: string, o: nat)
    requires o <= |img| && img[o..] == Encode([])
    ensures !Marked(img, o)
  {
    assert img[o + MAGIC_AT] == img[o..][MAGIC_AT] == '\0';
  }

  /** The data of member `k` begins where getFile says. */
  lemma {:induction false} DataFollowsHeader(img: string, o: nat, ms: seq<Member>, k: nat)
    requires forall j :: 0 <= j < |ms| ==> ValidMember(ms[j])
    requires o <= |img| && img[o..] == Encode(ms) && k < |ms|
    ensures k < |EntriesOf(ms, o)|
    ensures var a := EntriesOf(ms, o)[k].start + BLOCK;
            a + |ms[k].data| <= |img| && ms[k].data <= img[a..]
    decreases |ms|
  {
    hide Encode, Header, RoundUp;
    FirstMember(img, o, ms);
    if k == 0 {
    } else {
      DataFollowsHeader(img, o + BLOCK + RoundUp(|ms[0].data|), ms[1..], k - 1);
    }
  }

  /** From archive to bytes: the node that open finds for a file of an encoded archive
      points at that file's data. */
  lemma {:induction false} ArchiveReadBack(ms: seq<Member>, k: nat)
    requires forall j :: 0 <= j < |ms| ==> ValidMember(ms[j])
    requires ProperNames(EntriesOf(ms, 0)) && DirsFirst(EntriesOf(ms, 0)) && UniqueNames(EntriesOf(ms, 0))
    requires k < |ms| && ms[k].kind == FILE
    ensures var img := Encode(ms);
            && Readable(img, 0) && Entries(img, 0) == EntriesOf(ms, 0)
            && var root := Build(EntriesOf(ms, 0));
               var i := FindFile(root, ms[k].name, 1);
               && i == k + 1 < |root| && root[i].size == |ms[k].data|
               && root[i].start + BLOCK <= |img| && ms[k].data <= img[root[i].start + BLOCK..]
  {
    var img, es := Encode(ms), EntriesOf(ms, 0);
    hide Encode, Build, DirsFirst, UniqueNames;
    assert img[0..] == img;
    WalkVisitsMembers(img, 0, ms);
    DataFollowsHeader(img, 0, ms, k);
    EntryOfMember(ms, 0, k);
    OpenFindsEveryFile(es, k);
    BuildComplete(es);
    assert NodeMatches(Build(es), es, k);
  }

  lemma {:induction false} EntryOfMember(ms: seq<Member>, o: nat, k: nat)
    requires k < |ms|
    ensures |EntriesOf(ms, o)| == |ms|
    ensures EntriesOf(ms, o)[k].name == ms[k].name && EntriesOf(ms, o)[k].kind == ms[k].kind
    ensures EntriesOf(ms, o)[k].size == |ms[k].data|
    decreases |ms|
  {
    if |ms| == 1 {
    } else {
      EntryOfMember(ms[1..], o + BLOCK + RoundUp(|ms[0].data|), if k > 0 then k - 1 else 0);
    }
  }
}
