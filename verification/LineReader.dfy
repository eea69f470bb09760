/** The boot loader's line reader (rootfs/boot/support.4th): a file arrives in pieces
    of at most 80 characters, and lines are put together across them. */
module LineReader {

  const LF: char := '\n'
  const READ_BUFFER_SIZE: nat := 80

  // -------------------------------------------------------- what a line is

  /** The length of the text before the first line feed. */
  function LineLength(s: string): (n: nat)
    ensures n <= |s| && LF !in s[..n] && (n < |s| ==> s[n] == LF)
  {
    if s == "" || s[0] == LF then 0 else
    assert s[..1 + LineLength(s[1..])] == [s[0]] + s[1..][..LineLength(s[1..])];
    1 + LineLength(s[1..])
  }

  /** The non-empty lines of a text; the last need not be ended by a line feed. */
  function Lines(s: string): seq<string>
    decreases |s|
  {
    if s == "" then [] else
    if s[0] == LF then Lines(s[1..]) else
    [s[..LineLength(s)]] + Lines(s[LineLength(s)..])
  }

  function Join(chunks: seq<string>): string {
    if chunks == [] then "" else chunks[0] + Join(chunks[1..])
  }

  function NonEmpty(lines: seq<string>): seq<string> {
    if lines == [] then [] else (if lines[0] == "" then [] else [lines[0]]) + NonEmpty(lines[1..])
  }

  lemma {:induction false} NonEmptyAppend(lines: seq<string>, l: string)
    ensures NonEmpty(lines + [l]) == NonEmpty(lines) + if l == "" then [] else [l]
    decreases |lines|
  {
    if lines == [] {
      assert lines + [l] == [l] && [l][1..] == [];
    } else {
      assert (lines + [l])[1..] == lines[1..] + [l];
      NonEmptyAppend(lines[1..], l);
    }
  }

  lemma {:induction false} LineLengthIs(s: string, n: nat)
    requires n <= |s| && LF !in s[..n] && (n < |s| ==> s[n] == LF)
    ensures LineLength(s) == n
    decreases n
  {
    if n == 0 {
    } else {
      assert s[0] in s[..n];
      assert s[1..][..n - 1] == s[1..n] && forall c :: c in s[1..n] ==> c in s[..n];
      LineLengthIs(s[1..], n - 1);
    }
  }

  lemma NoLines()
    ensures Lines("") == []
  { }

  lemma Regroup(a: seq<string>, b: seq<string>, c: seq<string>)
    ensures (a + b) + c == a + (b + c)
  { }

  /** A finished line in front of the rest of the text. */
  lemma LineThenRest(line: string, rest: string)
    requires LF !in line && (rest == "" || rest[0] == LF)
    ensures Lines(line + rest) == (if line == "" then [] else [line]) + Lines(rest)
  {
    var s := line + rest;
    if line == "" {
      assert s == rest;
    } else {
      assert s[0] in line;
      assert s[..|line|] == line && s[|line|..] == rest;
      LineLengthIs(s, |line|);
    }
  }

  /** Lines put one behind the other, each ended by a line feed. */
  function Text(lines: seq<string>): string {
    if lines == [] then "" else lines[0] + "\n" + Text(lines[1..])
  }

  /** They are the lines of that text. */
  lemma {:induction false} LinesOfText(lines: seq<string>)
    requires forall k :: 0 <= k < |lines| ==> lines[k] != "" && '\n' !in lines[k]
    ensures Lines(Text(lines)) == lines
    decreases |lines|
  {
    if lines == [] {
    } else {
      var rest := Text(lines[1..]);
      assert Text(lines) == lines[0] + ("\n" + rest);
      LineThenRest(lines[0], "\n" + rest);
      LeadingNewline("\n" + rest, rest);
      LinesOfText(lines[1..]);
    }
  }

  lemma LeadingNewline(s: string, t: string)
    requires s == [LF] + t
    ensures Lines(s) == Lines(t)
  {
    assert s[1..] == t;
  }

  // ---------------------------------------------------------------- the code

  class Reader {
    var buffer: string           // read_buffer
    var ptr: nat                 // read_buffer_ptr
    var line: string             // line_buffer
    var eof: bool                // end_of_file?
    var chunks: seq<string>      // what fread will still deliver

    ghost predicate Valid()
      reads this
    {
      && ptr <= |buffer|
      && (forall k :: 0 <= k < |chunks| ==> 0 < |chunks[k]| <= READ_BUFFER_SIZE)
      && (eof ==> buffer == "" && chunks == [])
    }

    /** The text not yet turned into lines. */
    ghost function Rest(): string
      reads this
      requires Valid()
    {
      buffer[ptr..] + Join(chunks)
    }

    /** Shrinks with every read_line. */
    ghost function Left(): nat
      reads this
      requires Valid()
    {
      |Rest()| + |chunks| + if eof then 0 else 1
    }

    constructor (chunks: seq<string>)
      requires forall k :: 0 <= k < |chunks| ==> 0 < |chunks[k]| <= READ_BUFFER_SIZE
      ensures Valid() && Rest() == Join(chunks) && !eof
    {
      buffer, ptr, line, eof := "", 0, "", false;
      this.chunks := chunks;
    }

    method SkipNewlines()
      requires Valid()
      modifies this`ptr
      ensures Valid() && old(ptr) <= ptr && Lines(Rest()) == Lines(old(Rest()))
      ensures |Rest()| == old(|Rest()|) - (ptr - old(ptr))
      ensures ptr < |buffer| ==> buffer[ptr] != LF
    {
      while ptr < |buffer| && buffer[ptr] == LF
        invariant Valid() && old(ptr) <= ptr
        invariant Lines(Rest()) == Lines(old(Rest()))
        invariant |Rest()| == old(|Rest()|) - (ptr - old(ptr))
      {
        assert buffer[ptr..] == [LF] + buffer[ptr + 1..];
        LeadingNewline(Rest(), buffer[ptr + 1..] + Join(chunks));
        ptr := ptr + 1;
      }
    }

    /** scan_buffer: the text up to the next line feed or the end of the piece. */
    method ScanBuffer() returns (text: string)
      requires Valid()
      modifies this`ptr
      ensures Valid() && old(ptr) <= ptr && text == buffer[old(ptr)..ptr] && LF !in text
      ensures ptr < |buffer| ==> buffer[ptr] == LF
    {
      var r := ptr;
      while r < |buffer| && buffer[r] != LF
        invariant ptr <= r <= |buffer| && LF !in buffer[ptr..r]
      {
        r := r + 1;
      }
      text := buffer[ptr..r];
      ptr := r;
    }

    method ReadFromBuffer()
      requires Valid()
      modifies this`ptr, this`line
      ensures Valid() && old(ptr) <= ptr && line == old(line) + buffer[old(ptr)..ptr]
      ensures LF !in old(line) ==> LF !in line
      ensures line + Rest() == old(line + Rest())
      ensures ptr < |buffer| ==> buffer[ptr] == LF
    {
      var text := ScanBuffer();
      line := line + text;
      assert buffer[old(ptr)..] == text + buffer[ptr..];
    }

    method RefillBuffer()
      requires Valid() && ptr == |buffer| && !eof
      modifies this
      ensures Valid() && ptr == 0 && line == old(line) && Rest() == old(Rest())
      ensures |chunks| + (if eof then 0 else 1) == old(|chunks|)
    {
      ptr := 0;
      if chunks == [] {
        buffer := "";
        eof := true;
      } else {
        buffer := chunks[0];
        chunks := chunks[1..];
      }
      assert old(buffer[ptr..]) == "" && buffer[ptr..] == buffer;
    }

    /** read_line.  Whatever the pieces, the line delivered, if it is not empty, is the
        next line of the text; an empty one may come between. */
    method ReadLine()
      requires Valid() && !eof
      modifies this
      ensures Valid() && Left() < old(Left())
      ensures Lines(old(Rest())) == (if line == "" then [] else [line]) + Lines(Rest())
      ensures eof ==> Rest() == ""
    {
      line := "";
      SkipNewlines();
      ghost var text := Rest();
      assert line + text == text;
      ReadFromBuffer();
      while ptr == |buffer| && !eof
        invariant Valid() && LF !in line && line + Rest() == text
        invariant ptr < |buffer| ==> buffer[ptr] == LF
        invariant |Rest()| <= |text| <= old(|Rest()|)
        invariant |chunks| <= old(|chunks|) && (eof ==> chunks == [])
        invariant || |Rest()| < old(|Rest()|)
                  || |chunks| + (if eof then 0 else 1) <= old(|chunks|)
                  || (ptr == |buffer| && !eof)
        decreases |chunks| + if eof then 0 else 1
      {
        RefillBuffer();
        ReadFromBuffer();
      }
      LineThenRest(line, Rest());
    }

    /** process_conf's loop, delivering every line. */
    method ProcessConf() returns (lines: seq<string>)
      requires Valid() && !eof
      modifies this
      ensures NonEmpty(lines) == Lines(old(Rest()))
    {
      hide Lines;
      NoLines();
      lines := [];
      while !eof
        invariant Valid() && (eof ==> Rest() == "")
        invariant NonEmpty(lines) + Lines(Rest()) == Lines(old(Rest()))
        decreases Left()
      {
        ghost var before := NonEmpty(lines);
        ReadLine();
        NonEmptyAppend(lines, line);
        Regroup(before, if line == "" then [] else [line], Lines(Rest()));
        lines := lines + [line];
      }
    }
  }

  /** The lines delivered depend on the file alone, not on how it was split. */
  method ReadFile(chunks: seq<string>) returns (lines: seq<string>)
    requires forall k :: 0 <= k < |chunks| ==> 0 < |chunks[k]| <= READ_BUFFER_SIZE
    ensures NonEmpty(lines) == Lines(Join(chunks))
  {
    var r := new Reader(chunks);
    lines := r.ProcessConf();
  }
}
