/** libks/buffer.c: a text that grows by doubling, and reading it line by line. */
module Buffer {
  import opened Wrappers
  import opened Arithmetic
  import opened Interpolation
  import opened Arena
  import opened Growth

  class Buffer {
    /** An empty array stands for no storage. */
    var ptr: array<char>
    var len: nat

    predicate Valid()
      reads this
    {
      len <= ptr.Length <= SIZE_MAX
    }

    function Contents(): string
      reads this, ptr
      requires Valid()
    {
      ptr[..len]
    }

    constructor ()
      ensures Valid() && Contents() == "" && ptr.Length == 0 && fresh(ptr)
    {
      ptr := new char[0];
      len := 0;
    }

    /**
     n more characters cannot be had: their number cannot be represented, or where the
     capacity is doubled no number of doublings is enough.
     */
    ghost predicate Overflows(n: nat, overshoot: bool)
      reads this
    {
      len + n > SIZE_MAX || (len + n > ptr.Length && overshoot && NeverReaches(Start(ptr.Length), len + n))
    }

    /** The capacity to be had: the one there is, the first doubling that is enough, or without overshoot no more than needed. */
    ghost predicate Sized(n: nat, overshoot: bool, size: nat)
      reads this
    {
      if 0 < ptr.Length && len + n <= ptr.Length then size == ptr.Length
      else if overshoot then LeastReach(Start(ptr.Length), len + n, size)
      else size == len + n
    }

    /** Makes room for n more characters; the contents stay. Without overshoot it takes no more than needed. */
    method Reserve(n: nat, overshoot: bool) returns (error: bool)
      requires Valid() && n <= SIZE_MAX
      modifies `ptr
      ensures Valid() && Contents() == old(Contents())
      ensures error <==> old(Overflows(n, overshoot))
      ensures if error then ptr == old(ptr) else len + n <= ptr.Length
      ensures !error ==> var size := ptr.Length; old(Sized(n, overshoot, size))
      ensures ptr == old(ptr) || fresh(ptr)
    {
      if len + n <= SIZE_MAX {
        CapacityIs(ptr.Length, len + n);
      }
      hide NeverReaches, LeastReach;
      if n > SIZE_MAX - len {
        return true;
      }
      var newlen := len + n;
      if ptr.Length > 0 && ptr.Length >= newlen {
        return false;
      }
      var newsiz := newlen;
      if overshoot {
        newsiz := if ptr.Length > 0 then ptr.Length else 16;
        while newsiz < newlen
          invariant 0 < newsiz <= SIZE_MAX && Capacity(ptr.Length, newlen) == Doubled(newsiz, newlen)
          decreases newlen - newsiz
        {
          if newsiz > SIZE_MAX / 2 {
            return true;
          }
          newsiz := newsiz * 2;
        }
      }
      ptr := Grown(ptr, len, newsiz);
      return false;
    }

    /** Appends a text; on error the buffer is as it was. */
    method Puts(str: string) returns (error: bool)
      requires Valid() && |str| <= SIZE_MAX
      modifies this, ptr
      ensures Valid() && (ptr == old(ptr) || fresh(ptr))
      ensures error <==> old(Overflows(|str|, true)) && str != ""
      ensures Contents() == if error then old(Contents()) else old(Contents()) + str
    {
      if |str| == 0 {
        return false;
      }
      error := Reserve(|str|, true);
      if error {
        return;
      }
      for i := 0 to |str|
        invariant Valid() && ptr[..len] == old(Contents()) && len + |str| <= ptr.Length && (ptr == old(ptr) || fresh(ptr))
        invariant len == old(len) && ptr[len..len + i] == str[..i]
      {
        ptr[len + i] := str[i];
      }
      assert ptr[..len + |str|] == ptr[..len] + ptr[len..len + |str|];
      len := len + |str|;
    }

    /** Removes up to n characters at the end. */
    method Pop(n: nat) returns (removed: nat)
      requires Valid()
      modifies `len
      ensures Valid() && removed == (if n < old(len) then n else old(len))
      ensures Contents() == old(Contents())[..old(len) - removed]
    {
      removed := if n > len then len else n;
      len := len - removed;
    }

    /** Ends the text with NUL, unless it does, and hands the storage over. */
    method Str() returns (str: Option<string>)
      requires Valid()
      modifies this, ptr
      ensures Valid()
      ensures str.Some? ==> Contents() == "" && ptr.Length == 0 && fresh(ptr)
      ensures str.Some? ==> str.value == old(Contents()) + if old(Terminated()) then "" else ['\0']
      ensures str.Some? ==> |str.value| > 0 && str.value[|str.value| - 1] == '\0'
      ensures str.None? <==> !old(Terminated()) && old(Overflows(1, true))
    {
      var text := ptr[..len];
      if len == 0 || ptr[len - 1] != '\0' {
        var error := Puts(['\0']);
        if error {
          return None;
        }
        text := ptr[..len];
      } else {
        assert text + "" == text;
      }
      ptr, len := new char[0], 0;
      return Some(text);
    }

    predicate Terminated()
      reads this, ptr
      requires Valid()
    {
      len > 0 && ptr[len - 1] == '\0'
    }
  }

  // ----- lines -----

  /** The lines of a text; a newline at its end starts no line. */
  function Lines(s: string): seq<string>
    decreases |s|
  {
    if s == "" then []
    else
      var n := FindChar(s, '\n');
      if n == |s| then [s] else [s[..n]] + Lines(s[n + 1..])
  }

  function Unlines(lines: seq<string>): string {
    if lines == [] then "" else lines[0] + (['\n'] + Unlines(lines[1..]))
  }

  lemma FirstLine(s: string)
    requires s != ""
    ensures var n := FindChar(s, '\n');
            if n < |s| then Lines(s) == [s[..n]] + Lines(s[n + 1..]) && Lines(s)[1..] == Lines(s[n + 1..])
            else s[..n] == s && Lines(s) == [s] && Lines(s)[1..] == []
  {}

  function Ended(s: string): string {
    if s == "" || s[|s| - 1] == '\n' then s else s + ['\n']
  }

  lemma EndedAfter(a: string, s: string)
    ensures Ended(a + (['\n'] + s)) == a + (['\n'] + Ended(s))
  {
    if s != "" {
      assert (a + (['\n'] + s))[|a| + |s|] == s[|s| - 1];
      assert (a + (['\n'] + s)) + ['\n'] == a + (['\n'] + (s + ['\n']));
    }
  }

  lemma CutAtNewline(s: string, n: nat)
    requires n < |s| && s[n] == '\n'
    ensures s == s[..n] + (['\n'] + s[n + 1..])
  {}

  lemma UnlinesCons(line: string, lines: seq<string>)
    ensures Unlines([line] + lines) == line + (['\n'] + Unlines(lines))
  {
    assert ([line] + lines)[1..] == lines;
  }

  lemma UnlinesLast(s: string)
    requires s != "" && '\n' !in s
    ensures Unlines([s]) == Ended(s)
  {
    assert s[|s| - 1] in s;
    assert [s][1..] == [] && ['\n'] + "" == ['\n'];
  }

  /** Joining the lines gives the text back, with a newline at its end. */
  lemma {:induction false} UnlinesOfLines(s: string)
    ensures Unlines(Lines(s)) == Ended(s)
    decreases |s|
  {
    if s == "" {
    } else {
      var n := FindChar(s, '\n');
      FirstLine(s);
      if n < |s| {
        UnlinesOfLines(s[n + 1..]);
        UnlinesCons(s[..n], Lines(s[n + 1..]));
        EndedAfter(s[..n], s[n + 1..]);
        CutAtNewline(s, n);
      } else {
        UnlinesLast(s);
      }
    }
  }

  /** Lines without newlines come back from the text that they make. */
  lemma {:induction false} LinesOfUnlines(lines: seq<string>)
    requires forall i :: 0 <= i < |lines| ==> '\n' !in lines[i]
    ensures Lines(Unlines(lines)) == lines
  {
    if lines == [] {
    } else {
      var rest := ['\n'] + Unlines(lines[1..]);
      FindCharAfter(lines[0], rest, '\n');
      LinesOfUnlines(lines[1..]);
      var s := lines[0] + rest;
      assert s[..|lines[0]|] == lines[0] && s[|lines[0]| + 1..] == Unlines(lines[1..]);
    }
  }

  lemma {:induction false} LinesHaveNoNewline(s: string)
    ensures forall i :: 0 <= i < |Lines(s)| ==> '\n' !in Lines(s)[i]
    decreases |s|
  {
    if s == "" {
    } else {
      var n := FindChar(s, '\n');
      if n < |s| {
        LinesHaveNoNewline(s[n + 1..]);
      } else {
        assert s[..n] == s;
      }
    }
  }

  /** The lines from an offset on. */
  function LinesFrom(text: string, off: nat): seq<string> {
    if off >= |text| then [] else Lines(text[off..])
  }

  lemma NextLine(text: string, off: nat, n: nat)
    requires off < |text| && n == FindChar(text[off..], '\n')
    ensures off + n <= |text| && '\n' !in text[off..off + n]
    ensures LinesFrom(text, off) == [text[off..off + n]] + LinesFrom(text, off + n + 1)
  {
    var rest := text[off..];
    FirstLine(rest);
    assert rest[..n] == text[off..off + n];
    if n < |rest| {
      assert rest[n + 1..] == text[off + n + 1..];
    }
  }

  /** Reads a text line by line. */
  class GetLine {
    const text: string
    var off: nat

    constructor (text: string)
      ensures this.text == text && off == 0
    {
      this.text := text;
      off := 0;
    }

    function Left(): seq<string>
      reads this
    {
      LinesFrom(text, off)
    }

    method Next() returns (line: Option<string>)
      modifies this
      ensures old(Left()) == [] ==> line == None && Left() == []
      ensures old(Left()) != [] ==> line.Some? && old(Left()) == [line.value] + Left()
      ensures line.Some? ==> old(off) < off <= |text| + 1 && '\n' !in line.value
    {
      if off >= |text| {
        return None;
      }
      var linelen := FindChar(text[off..], '\n');
      NextLine(text, off, linelen);
      line := Some(text[off..off + linelen]);
      off := off + linelen + 1;
    }
  }
}
