/** regress-log.c: cutting shell traces off a log, and finding the parts of a log that matter. */
module RegressLog {
  import opened Wrappers
  import opened Interpolation
  import opened Buffer

  /** A line as a C string, which ends at the first NUL. */
  function CString(line: string): string {
    line[..FindChar(line, '\0')]
  }

  function CStrings(lines: seq<string>): seq<string> {
    if lines == [] then [] else CStrings(lines[..|lines| - 1]) + [CString(lines[|lines| - 1])]
  }

  lemma CStringsMore(lines: seq<string>, l: string)
    ensures CStrings(lines + [l]) == CStrings(lines) + [CString(l)]
  {
    assert (lines + [l])[..|lines|] == lines;
  }

  predicate IsXtrace(line: string) {
    line != "" && line[0] == '+'
  }

  // ----- trimming -----

  /** The lines without the traces at the beginning. */
  function DropStart(lines: seq<string>): seq<string> {
    if lines != [] && IsXtrace(lines[0]) then DropStart(lines[1..]) else lines
  }

  /** The lines without the traces at the end. */
  function DropEnd(lines: seq<string>): seq<string> {
    if lines != [] && IsXtrace(lines[|lines| - 1]) then DropEnd(lines[..|lines| - 1]) else lines
  }

  function TrimLines(lines: seq<string>): seq<string> {
    DropEnd(DropStart(lines))
  }

  function TrimText(text: string): string {
    Unlines(TrimLines(CStrings(Lines(text))))
  }

  lemma {:induction false} DropStartMore(lines: seq<string>, l: string)
    ensures DropStart(lines + [l]) == if DropStart(lines) == [] && IsXtrace(l) then [] else DropStart(lines) + [l]
  {
    if lines != [] && IsXtrace(lines[0]) {
      assert (lines + [l])[1..] == lines[1..] + [l];
      DropStartMore(lines[1..], l);
    } else if lines == [] {
      assert [] + [l] == [l] && [l][1..] == [];
    }
  }

  lemma DropEndMore(lines: seq<string>, l: string)
    ensures DropEnd(lines + [l]) == if IsXtrace(l) then DropEnd(lines) else lines + [l]
  {
    assert (lines + [l])[..|lines|] == lines;
  }

  lemma {:induction false} UnlinesMore(lines: seq<string>, l: string)
    ensures Unlines(lines + [l]) == Unlines(lines) + (l + ['\n'])
  {
    if lines == [] {
      assert [] + [l] == [l] && [l][1..] == [];
      assert ['\n'] + "" == ['\n'];
    } else {
      assert (lines + [l])[1..] == lines[1..] + [l];
      UnlinesMore(lines[1..], l);
      ConcatAssociates(lines[0], ['\n'] + Unlines(lines[1..]), l + ['\n']);
      ConcatAssociates(['\n'], Unlines(lines[1..]), l + ['\n']);
    }
  }

  /** One pass over the lines that remembers where the last run of traces began. */
  method RegressLogTrim(text: string) returns (out: string)
    ensures out == TrimText(text)
  {
    var it := new GetLine(text);
    var bf, xbeg := "", true;
    var xend: nat := 0;
    ghost var seen, left := [], Lines(text);
    assert text[0..] == text && seen + left == left;
    while true
      invariant left == it.Left() && seen + left == Lines(text)
      invariant Trimmed(CStrings(seen), bf, xbeg, xend)
      decreases |text| + 1 - it.off
    {
      var line := it.Next();
      if line.None? {
        break;
      }
      var str := CString(line.value);
      ghost var before := CStrings(seen);
      CStringsMore(seen, line.value);
      ConcatAssociates(seen, [line.value], it.Left());
      seen, left := seen + [line.value], it.Left();
      TrimmedMore(before, bf, xbeg, xend, str);
      if xbeg && IsXtrace(str) {
        continue;
      }
      xbeg := false;
      if IsXtrace(str) {
        if xend == 0 {
          xend := |bf|;
        }
      } else {
        xend := 0;
      }
      bf := bf + (str + ['\n']);
    }
    assert left == [] && seen + [] == seen;
    out := if xend > 0 then bf[..xend] else bf;
  }

  /** What the pass knows after some lines. */
  ghost predicate Trimmed(lines: seq<string>, bf: string, xbeg: bool, xend: nat) {
    var kept := DropStart(lines);
    && bf == Unlines(kept) && (xbeg <==> kept == []) && xend <= |bf|
    && (if xend == 0 then DropEnd(kept) == kept else bf[..xend] == Unlines(DropEnd(kept)))
  }

  lemma TrimmedMore(lines: seq<string>, bf: string, xbeg: bool, xend: nat, str: string)
    requires Trimmed(lines, bf, xbeg, xend)
    ensures if xbeg && IsXtrace(str) then Trimmed(lines + [str], bf, xbeg, xend)
            else Trimmed(lines + [str], bf + (str + ['\n']), false, if !IsXtrace(str) then 0 else if xend == 0 then |bf| else xend)
  {
    var kept := DropStart(lines);
    DropStartMore(lines, str);
    if !(xbeg && IsXtrace(str)) {
      DropEndMore(kept, str);
      UnlinesMore(kept, str);
      var end := if xend == 0 then |bf| else xend;
      assert (bf + (str + ['\n']))[..end] == bf[..end];
      assert bf[..|bf|] == bf;
    }
  }

  lemma {:induction false} DropStartIs(lines: seq<string>) returns (a: nat)
    ensures a <= |lines| && DropStart(lines) == lines[a..] && forall i :: 0 <= i < a ==> IsXtrace(lines[i])
    ensures a < |lines| ==> !IsXtrace(lines[a])
  {
    a := 0;
    if lines != [] && IsXtrace(lines[0]) {
      a := DropStartIs(lines[1..]);
      a := a + 1;
    }
  }

  lemma {:induction false} DropEndIs(lines: seq<string>) returns (b: nat)
    ensures b <= |lines| && DropEnd(lines) == lines[..b] && forall i :: b <= i < |lines| ==> IsXtrace(lines[i])
    ensures b > 0 ==> !IsXtrace(lines[b - 1])
  {
    b := |lines|;
    assert lines[..b] == lines;
    if lines != [] && IsXtrace(lines[|lines| - 1]) {
      b := DropEndIs(lines[..|lines| - 1]);
      assert lines[..|lines| - 1][..b] == lines[..b];
    }
  }

  /** Trimming keeps the lines between the first and the last that is no trace, and only drops traces. */
  lemma TrimIsMiddle(lines: seq<string>) returns (a: nat, b: nat)
    ensures a <= b <= |lines| && TrimLines(lines) == lines[a..b]
    ensures forall i :: 0 <= i < |lines| && (i < a || b <= i) ==> ['+'] <= lines[i]
    ensures a < b ==> !(['+'] <= lines[a]) && !(['+'] <= lines[b - 1])
  {
    a := DropStartIs(lines);
    var n := DropEndIs(lines[a..]);
    b := a + n;
    assert lines[a..][..n] == lines[a..b];
    forall i | b <= i < |lines| ensures ['+'] <= lines[i] {
      assert lines[i] == lines[a..][i - a];
    }
    assert n > 0 ==> lines[b - 1] == lines[a..][n - 1];
  }

  lemma {:induction false} CStringsPlain(lines: seq<string>)
    requires forall i :: 0 <= i < |lines| ==> '\0' !in lines[i]
    ensures CStrings(lines) == lines
  {
    if lines == [] {
    } else {
      var n := |lines| - 1;
      CStringsPlain(lines[..n]);
      FindCharAfter(lines[n], "", '\0');
      assert lines[n] + "" == lines[n] && lines[n][..|lines[n]|] == lines[n];
    }
  }

  lemma {:induction false} CStringsClean(lines: seq<string>)
    requires forall i :: 0 <= i < |lines| ==> '\n' !in lines[i]
    ensures |CStrings(lines)| == |lines|
    ensures forall i :: 0 <= i < |lines| ==> '\0' !in CStrings(lines)[i] && '\n' !in CStrings(lines)[i]
  {
    if lines == [] {
    } else {
      CStringsClean(lines[..|lines| - 1]);
    }
  }

  /** Trimming a trimmed log changes nothing. */
  lemma TrimTwice(text: string)
    ensures TrimText(TrimText(text)) == TrimText(text)
  {
    hide Lines, Unlines, CStrings, TrimLines;
    LinesHaveNoNewline(text);
    CStringsClean(Lines(text));
    var lines := CStrings(Lines(text));
    var a, b := TrimIsMiddle(lines);
    var out := TrimLines(lines);
    assert forall i :: 0 <= i < |out| ==> out[i] == lines[a + i];
    LinesOfUnlines(out);
    CStringsPlain(out);
    TrimFixed(out);
  }

  /** Lines that begin and end with no trace are left alone. */
  lemma TrimFixed(lines: seq<string>)
    requires lines != [] ==> !IsXtrace(lines[0]) && !IsXtrace(lines[|lines| - 1])
    ensures TrimLines(lines) == lines
  {}

  // ----- markers -----

  const NEEDLE: string := ['=', '=', '=', '=']

  /** What the comment of ismarker_regress promises: ==== and a blank, anything, a blank and ====. */
  predicate MarkerComment(s: string) {
    |s| >= 10 && s[..4] == NEEDLE && s[4] == ' ' && s[|s| - 5] == ' ' && s[|s| - 4..] == NEEDLE
  }

  /** An equals sign behind a blank, at or after position i. */
  predicate BlankEquals(s: string, i: nat) {
    0 < i < |s| && s[i - 1] == ' ' && s[i] == '='
  }

  /** No equals sign stands behind a blank before the last four characters. */
  predicate NoneBefore(s: string) {
    forall i: nat :: 5 <= i < |s| - 4 ==> !BlankEquals(s, i)
  }

  /** What the code accepts: its search stops at the first equals sign behind a blank, which must start the end. */
  method IsMarkerRegress(s: string) returns (r: bool)
    ensures r <==> (MarkerComment(s) || s == NEEDLE + [' '] + NEEDLE) && NoneBefore(s)
  {
    if !(NEEDLE <= s) {
      return false;
    }
    if |s| < 5 || s[4] != ' ' {
      return false;
    }
    var i := 5;
    while i < |s|
      invariant 5 <= i <= |s| && forall j :: 5 <= j < i ==> !BlankEquals(s, j)
    {
      if s[i - 1] == ' ' && s[i] == '=' {
        break;
      }
      i := i + 1;
    }
    if !(NEEDLE <= s[i..]) {
      MarkerEnds(s, i);
      return false;
    }
    MarkerEnds(s, i);
    return i + 4 == |s|;
  }

  /** Where an accepted line ends decides. */
  lemma MarkerEnds(s: string, i: nat)
    requires 5 <= i <= |s| && NEEDLE <= s && s[4] == ' ' && (i < |s| ==> BlankEquals(s, i))
    requires forall j :: 5 <= j < i ==> !BlankEquals(s, j)
    ensures ((MarkerComment(s) || s == NEEDLE + [' '] + NEEDLE) && NoneBefore(s))
            <==> NEEDLE <= s[i..] && i + 4 == |s|
  {
    var accepted := (MarkerComment(s) || s == NEEDLE + [' '] + NEEDLE) && NoneBefore(s);
    if NEEDLE <= s[i..] && i + 4 == |s| {
      assert s[i..] == NEEDLE && s[..4] == NEEDLE;
      if i == 5 {
        assert s == s[..4] + [s[4]] + s[5..];
      }
    }
    if accepted {
      assert BlankEquals(s, |s| - 4) by {
        if MarkerComment(s) {
          assert s[|s| - 4..][0] == '=';
        }
      }
      assert s[|s| - 4..] == NEEDLE;
    }
  }

  /** The code accepts a line that its comment rules out, and rejects one that the comment describes. */
  lemma MarkersDiffer()
    ensures var s := NEEDLE + [' '] + NEEDLE; !MarkerComment(s) && NoneBefore(s)
    ensures var s := NEEDLE + [' ', 'a', ' ', '=', 'b', ' '] + NEEDLE; MarkerComment(s) && !NoneBefore(s)
  {
    var s := NEEDLE + [' ', 'a', ' ', '=', 'b', ' '] + NEEDLE;
    assert s[..4] == NEEDLE && s[|s| - 4..] == NEEDLE && BlankEquals(s, 7);
  }

  // ----- finding -----

  datatype Flags = Flags(skipped: bool, failed: bool, xfailed: bool, xpassed: bool, newline: bool, peek: bool)

  predicate Contains(s: string, part: string) {
    part <= s || (s != "" && Contains(s[1..], part))
  }

  predicate ContainsAny(s: string, parts: seq<string>) {
    parts != [] && (Contains(s, parts[0]) || ContainsAny(s, parts[1..]))
  }

  /** The words that the flags look for. */
  function Words(f: Flags): seq<string> {
    (if f.skipped then ["SKIPPED", "DISABLED"] else []) + (if f.failed then ["FAILED"] else []) +
    (if f.xfailed then ["EXPECTED_FAIL"] else []) + (if f.xpassed then ["UNEXPECTED_PASS"] else [])
  }

  predicate Found(line: string, f: Flags) {
    ContainsAny(line, Words(f))
  }

  predicate Marker(line: string) {
    ((MarkerComment(line) || line == NEEDLE + [' '] + NEEDLE) && NoneBefore(line)) || ['=', '=', '=', '>'] <= line
  }

  /** Going back from a line: everything up to the nearest marker, or to the line after the last one found. */
  function Back(before: seq<string>, line: string, f: Flags): seq<string>
    decreases |before|
  {
    var n := |before| - 1;
    if before == [] || Marker(line) || Found(before[n], f) then [line] else Back(before[..n], before[n], f) + [line]
  }

  /** For each line that is found, the lines that belong to it. */
  function Blocks(lines: seq<string>, f: Flags): seq<seq<string>> {
    var n := |lines| - 1;
    if lines == [] then []
    else Blocks(lines[..n], f) + if Found(lines[n], f) then [Back(lines[..n], lines[n], f)] else []
  }

  /** The lines that will belong to the next one, unless that is a marker. */
  function Scratch(lines: seq<string>, f: Flags): seq<string> {
    var n := |lines| - 1;
    if lines == [] || Found(lines[n], f) then [] else Back(lines[..n], lines[n], f)
  }

  /** Blocks as text, with an empty line between them, and before the first one if asked. */
  function Report(blocks: seq<seq<string>>, newline: bool): string {
    var n := |blocks| - 1;
    if blocks == [] then ""
    else Report(blocks[..n], newline) + ((if n == 0 && !newline then "" else ['\n']) + Unlines(blocks[n]))
  }

  lemma BackMore(before: seq<string>, line: string, f: Flags)
    ensures Back(before, line, f) == (if Marker(line) then [] else Scratch(before, f)) + [line]
  {
    assert [] + [line] == [line];
  }

  lemma BlocksMore(before: seq<string>, line: string, f: Flags)
    ensures Blocks(before + [line], f) == if Found(line, f) then Blocks(before, f) + [Back(before, line, f)] else Blocks(before, f)
    ensures Scratch(before + [line], f) == if Found(line, f) then [] else Back(before, line, f)
  {
    assert (before + [line])[..|before|] == before;
    assert Blocks(before, f) + [] == Blocks(before, f);
  }

  lemma ReportMore(blocks: seq<seq<string>>, block: seq<string>, newline: bool)
    ensures Report(blocks + [block], newline) ==
            Report(blocks, newline) + ((if |blocks| == 0 && !newline then "" else ['\n']) + Unlines(block))
  {
    assert (blocks + [block])[..|blocks|] == blocks;
  }

  /** The lines of a log that are looked at: not the traces at the beginning. */
  function Body(text: string): seq<string> {
    DropStart(CStrings(Lines(text)))
  }

  /** One pass over the lines; with peek it only says whether there is anything. */
  method RegressLogParse(text: string, f: Flags) returns (nfound: nat, out: string)
    ensures !f.peek ==> nfound == |Blocks(Body(text), f)| && out == Report(Blocks(Body(text), f), f.newline)
    ensures f.peek ==> nfound == if Blocks(Body(text), f) == [] then 0 else 1
  {
    var it := new GetLine(text);
    var xtrace, scratch := true, "";
    nfound, out := 0, "";
    ghost var seen, left := [], Lines(text);
    assert text[0..] == text && seen + left == left;
    while true
      invariant left == it.Left() && seen + left == Lines(text)
      invariant Collected(CStrings(seen), f, xtrace, scratch, nfound, out) && (f.peek ==> nfound == 0)
      decreases |text| + 1 - it.off
    {
      var line := it.Next();
      if line.None? {
        break;
      }
      var str := CString(line.value);
      CStringsMore(seen, line.value);
      ConcatAssociates(seen, [line.value], it.Left());
      ghost var before := CStrings(seen);
      seen, left := seen + [line.value], it.Left();
      xtrace, scratch, nfound, out := Collect(before, f, str, xtrace, scratch, nfound, out);
      if f.peek && nfound > 0 {
        BlocksGrow(CStrings(seen), CStrings(left), f);
        FoundStays(text, seen, left, f);
        return 1, out;
      }
    }
    assert left == [] && seen + [] == seen;
  }

  /** What the pass does with a line; with peek it stops at the first one that is found. */
  method Collect(ghost lines: seq<string>, f: Flags, str: string, xtrace0: bool, scratch0: string, nfound0: nat, out0: string)
    returns (xtrace: bool, scratch: string, nfound: nat, out: string)
    requires Collected(lines, f, xtrace0, scratch0, nfound0, out0) && (f.peek ==> nfound0 == 0)
    ensures Collected(lines + [str], f, xtrace, scratch, nfound, out)
  {
    DropStartMore(lines, str);
    if xtrace0 && IsXtrace(str) {
      return xtrace0, scratch0, nfound0, out0;
    }
    xtrace := false;
    scratch, nfound, out := CollectLine(DropStart(lines), f, str, scratch0, nfound0, out0);
  }

  method CollectLine(ghost body: seq<string>, f: Flags, str: string, scratch0: string, nfound0: nat, out0: string)
    returns (scratch: string, nfound: nat, out: string)
    requires CollectedBody(body, f, scratch0, nfound0, out0) && (f.peek ==> nfound0 == 0)
    ensures CollectedBody(body + [str], f, scratch, nfound, out)
  {
    nfound, out := nfound0, out0;
    scratch := Keep(str, scratch0);
    if Found(str, f) {
      LineFound(body, f, str, scratch0, nfound0, out0);
      if !f.peek {
        out := Put(out, nfound, f.newline, scratch);
        scratch := "";
      }
      nfound := nfound + 1;
    } else {
      LineKept(body, f, str, scratch0, nfound0, out0);
    }
  }

  function Kept(str: string, scratch: string): string {
    (if Marker(str) then "" else scratch) + (str + ['\n'])
  }

  function Reported(out: string, nfound: nat, newline: bool, scratch: string): string {
    out + ((if nfound == 0 && !newline then "" else ['\n']) + scratch)
  }

  lemma LineKept(body: seq<string>, f: Flags, str: string, scratch: string, nfound: nat, out: string)
    requires CollectedBody(body, f, scratch, nfound, out) && !Found(str, f) && (f.peek ==> nfound == 0)
    ensures CollectedBody(body + [str], f, Kept(str, scratch), nfound, out)
  {
    CollectedMore(body, f, str);
  }

  lemma LineFound(body: seq<string>, f: Flags, str: string, scratch: string, nfound: nat, out: string)
    requires CollectedBody(body, f, scratch, nfound, out) && Found(str, f) && (f.peek ==> nfound == 0)
    ensures if f.peek then CollectedBody(body + [str], f, Kept(str, scratch), nfound + 1, out)
            else CollectedBody(body + [str], f, "", nfound + 1, Reported(out, nfound, f.newline, Kept(str, scratch)))
  {
    CollectedMore(body, f, str);
    assert Kept(str, scratch) == Unlines(Back(body, str, f));
  }

  method IsMarker(s: string) returns (r: bool)
    ensures r == Marker(s)
  {
    r := IsMarkerRegress(s);
    if !r {
      r := ['=', '=', '=', '>'] <= s;
    }
  }

  /** A marker starts over; every line is kept. */
  method Keep(str: string, scratch0: string) returns (scratch: string)
    ensures scratch == Kept(str, scratch0)
  {
    scratch := scratch0;
    var marker := IsMarker(str);
    if marker {
      scratch := "";
    }
    scratch := scratch + (str + ['\n']);
  }

  method Put(out0: string, nfound: nat, newline: bool, scratch: string) returns (out: string)
    ensures out == Reported(out0, nfound, newline, scratch)
  {
    var first := nfound == 0 && !newline;
    out := out0 + ((if first then "" else ['\n']) + scratch);
  }

  /** What the pass knows after some lines. */
  ghost predicate Collected(lines: seq<string>, f: Flags, xtrace: bool, scratch: string, nfound: nat, out: string) {
    (xtrace <==> DropStart(lines) == []) && CollectedBody(DropStart(lines), f, scratch, nfound, out)
  }

  ghost predicate CollectedBody(body: seq<string>, f: Flags, scratch: string, nfound: nat, out: string) {
    && nfound == |Blocks(body, f)|
    && ((f.peek && nfound > 0) || scratch == Unlines(Scratch(body, f)))
    && (!f.peek ==> out == Report(Blocks(body, f), f.newline))
  }

  lemma CollectedMore(body: seq<string>, f: Flags, str: string)
    ensures && Unlines(Back(body, str, f)) == (if Marker(str) then "" else Unlines(Scratch(body, f))) + (str + ['\n'])
            && Blocks(body + [str], f) == (if Found(str, f) then Blocks(body, f) + [Back(body, str, f)] else Blocks(body, f))
            && Scratch(body + [str], f) == (if Found(str, f) then [] else Back(body, str, f))
            && Report(Blocks(body, f) + [Back(body, str, f)], f.newline) ==
               Report(Blocks(body, f), f.newline) +
               ((if |Blocks(body, f)| == 0 && !f.newline then "" else ['\n']) + Unlines(Back(body, str, f)))
  {
    BackMore(body, str, f);
    UnlinesMore(if Marker(str) then [] else Scratch(body, f), str);
    BlocksMore(body, str, f);
    ReportMore(Blocks(body, f), Back(body, str, f), f.newline);
  }

  /** More lines add blocks and take none away. */
  lemma {:induction false} BlocksGrow(lines: seq<string>, more: seq<string>, f: Flags)
    ensures Blocks(DropStart(lines), f) <= Blocks(DropStart(lines + more), f)
  {
    hide Blocks, DropStart, Back, Found, IsXtrace;
    if more == [] {
      assert lines + more == lines;
    } else {
      var n := |more| - 1;
      BlocksGrow(lines, more[..n], f);
      assert lines + more == (lines + more[..n]) + [more[n]];
      DropStartMore(lines + more[..n], more[n]);
      BlocksMore(DropStart(lines + more[..n]), more[n], f);
    }
  }

  lemma {:induction false} CStringsConcat(a: seq<string>, b: seq<string>)
    ensures CStrings(a + b) == CStrings(a) + CStrings(b)
  {
    if b == [] {
      assert a + b == a;
    } else {
      var n := |b| - 1;
      assert (a + b)[..|a| + n] == a + b[..n];
      CStringsConcat(a, b[..n]);
    }
  }

  lemma FoundStays(text: string, seen: seq<string>, left: seq<string>, f: Flags)
    requires seen + left == Lines(text) && Blocks(DropStart(CStrings(seen)), f) != []
    requires Blocks(DropStart(CStrings(seen)), f) <= Blocks(DropStart(CStrings(seen) + CStrings(left)), f)
    ensures Blocks(Body(text), f) != []
  {
    CStringsConcat(seen, left);
  }

  // ----- what a block is -----

  /** A block ends with the line that is found and holds no other; only its first line can be a marker. */
  predicate IsBlock(block: seq<string>, f: Flags) {
    && block != []
    && (forall i :: 0 <= i < |block| - 1 ==> !Found(block[i], f))
    && (forall i :: 0 < i < |block| ==> !Marker(block[i]))
  }

  lemma {:induction false} BackIsBlock(before: seq<string>, line: string, f: Flags)
    ensures IsBlock(Back(before, line, f), f) && Back(before, line, f)[|Back(before, line, f)| - 1] == line
    decreases |before|
  {
    var n := |before| - 1;
    if !(before == [] || Marker(line) || Found(before[n], f)) {
      BackIsBlock(before[..n], before[n], f);
    }
  }

  function CountFound(lines: seq<string>, f: Flags): nat {
    if lines == [] then 0 else CountFound(lines[..|lines| - 1], f) + if Found(lines[|lines| - 1], f) then 1 else 0
  }

  /** There is one block for every line that is found, and it ends with that line. */
  lemma {:induction false} BlocksAreBlocks(lines: seq<string>, f: Flags)
    ensures |Blocks(lines, f)| == CountFound(lines, f)
    ensures forall i :: 0 <= i < |Blocks(lines, f)| ==>
              IsBlock(Blocks(lines, f)[i], f) && Found(Blocks(lines, f)[i][|Blocks(lines, f)[i]| - 1], f)
  {
    if lines == [] {
    } else {
      var n := |lines| - 1;
      BlocksAreBlocks(lines[..n], f);
      BackIsBlock(lines[..n], lines[n], f);
    }
  }
}
