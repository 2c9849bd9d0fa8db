/** What is reported of a log: which lines are found, where their blocks begin, and how they are put together. */
module RegressBlocks {
  import opened Wrappers
  import opened Interpolation
  import opened Buffer
  import opened RegressLog

  // ----- lines -----

  /** The text stands in the line. */
  predicate Has(line: string, part: string) {
    exists i :: 0 <= i <= |line| && part <= line[i..]
  }

  lemma {:induction false} ContainsIff(line: string, part: string)
    ensures Contains(line, part) <==> Has(line, part)
  {
    assert line[0..] == line;
    if line == "" {
    } else {
      ContainsIff(line[1..], part);
      if i :| 0 <= i <= |line| && part <= line[i..] {
        assert i > 0 ==> line[1..][i - 1..] == line[i..];
      }
      if i :| 0 <= i <= |line[1..]| && part <= line[1..][i..] {
        assert line[i + 1..] == line[1..][i..];
      }
    }
  }

  lemma {:induction false} AnyIs(line: string, parts: seq<string>)
    ensures ContainsAny(line, parts) <==> exists k :: 0 <= k < |parts| && Contains(line, parts[k])
  {
    if parts == [] {
    } else {
      AnyIs(line, parts[1..]);
      if k :| 0 <= k < |parts| && Contains(line, parts[k]) {
        assert k > 0 ==> parts[1..][k - 1] == parts[k];
      }
      if k :| 0 <= k < |parts[1..]| && Contains(line, parts[1..][k]) {
        assert parts[k + 1] == parts[1..][k];
      }
    }
  }

  lemma AnyConcat(line: string, a: seq<string>, b: seq<string>)
    ensures ContainsAny(line, a + b) <==> ContainsAny(line, a) || ContainsAny(line, b)
  {
    AnyIs(line, a);
    AnyIs(line, b);
    AnyIs(line, a + b);
    if k :| 0 <= k < |a| && Contains(line, a[k]) {
      assert (a + b)[k] == a[k];
    }
    if k :| 0 <= k < |b| && Contains(line, b[k]) {
      assert (a + b)[|a| + k] == b[k];
    }
  }

  lemma AnyOne(line: string, part: string)
    ensures ContainsAny(line, [part]) <==> Has(line, part)
  {
    AnyIs(line, [part]);
    ContainsIff(line, part);
    assert [part][0] == part;
  }

  lemma AnyNone(line: string)
    ensures !ContainsAny(line, [])
  {}

  /** Which lines are found: those with a word that one of the flags asks for. */
  lemma FoundIff(line: string, f: Flags)
    ensures Found(line, f) <==>
            || (f.skipped && (Has(line, "SKIPPED") || Has(line, "DISABLED")))
            || (f.failed && Has(line, "FAILED"))
            || (f.xfailed && Has(line, "EXPECTED_FAIL"))
            || (f.xpassed && Has(line, "UNEXPECTED_PASS"))
  {
    var a: seq<string> := if f.skipped then ["SKIPPED", "DISABLED"] else [];
    var b: seq<string> := if f.failed then ["FAILED"] else [];
    var c: seq<string> := if f.xfailed then ["EXPECTED_FAIL"] else [];
    var d: seq<string> := if f.xpassed then ["UNEXPECTED_PASS"] else [];
    assert ["SKIPPED", "DISABLED"] == ["SKIPPED"] + ["DISABLED"];
    assert Words(f) == a + b + c + d;
    hide ContainsAny, Has, Words;
    AnyNone(line);
    AnyOne(line, "SKIPPED");
    AnyOne(line, "DISABLED");
    AnyConcat(line, ["SKIPPED"], ["DISABLED"]);
    AnyOne(line, "FAILED");
    AnyOne(line, "EXPECTED_FAIL");
    AnyOne(line, "UNEXPECTED_PASS");
    AnyConcat(line, a, b);
    AnyConcat(line, a + b, c);
    AnyConcat(line, a + b + c, d);
  }

  /** Which lines start over: those that the marker scanner accepts, and those that begin with an arrow. */
  lemma MarkerIff(line: string)
    ensures Marker(line) <==>
            || "===>" <= line
            || (&& "==== " <= line && |line| >= 9 && line[|line| - 5..] == " ===="
                && forall i: nat :: 5 <= i < |line| - 4 ==> !(line[i - 1] == ' ' && line[i] == '='))
  {
    Ends(line);
    NoneBeforeIs(line);
    Arrow();
    hide MarkerComment, NoneBefore;
  }

  lemma Arrow()
    ensures "===>" == ['=', '=', '=', '>']
  {}

  lemma NoneBeforeIs(line: string)
    ensures NoneBefore(line) <==> forall i: nat :: 5 <= i < |line| - 4 ==> !(line[i - 1] == ' ' && line[i] == '=')
  {
    if NoneBefore(line) {
      forall i: nat | 5 <= i < |line| - 4 ensures !(line[i - 1] == ' ' && line[i] == '=') {
        assert !BlankEquals(line, i);
      }
    }
    if forall i: nat :: 5 <= i < |line| - 4 ==> !(line[i - 1] == ' ' && line[i] == '=') {
      forall i: nat | 5 <= i < |line| - 4 ensures !BlankEquals(line, i) {
        assert !(line[i - 1] == ' ' && line[i] == '=');
      }
    }
  }

  lemma Ends(line: string)
    ensures MarkerComment(line) || line == NEEDLE + [' '] + NEEDLE <==>
            "==== " <= line && |line| >= 9 && line[|line| - 5..] == " ===="
  {
    var n := |line|;
    if "==== " <= line && n >= 9 && line[n - 5..] == " ====" {
      assert line[..5] == "==== " && line[..4] == line[..5][..4];
      assert line[n - 4..] == line[n - 5..][1..] && line[n - 5..][0] == ' ';
      if n == 9 {
        assert line == line[..4] + line[4..];
      }
    }
    if MarkerComment(line) {
      assert line[..5] == line[..4] + [line[4]];
      assert line[n - 5..] == [line[n - 5]] + line[n - 4..];
    }
    if line == NEEDLE + [' '] + NEEDLE {
      assert line[..5] == "==== " && line[n - 5..] == " ====";
    }
  }

  // ----- blocks -----

  /**
   The block of line j goes back to line a: the nearest marker, or the line behind the
   nearest one found before, or the first line.
   */
  predicate Goes(lines: seq<string>, f: Flags, a: nat, j: nat) {
    && a <= j < |lines|
    && (a == 0 || Marker(lines[a]) || Found(lines[a - 1], f))
    && (forall i :: a < i <= j ==> !Marker(lines[i]))
    && (forall i :: a <= i < j ==> !Found(lines[i], f))
  }

  lemma {:induction false} BackGoes(lines: seq<string>, j: nat, f: Flags) returns (a: nat)
    requires j < |lines|
    ensures Goes(lines, f, a, j) && Back(lines[..j], lines[j], f) == lines[a..j + 1]
    decreases j
  {
    hide Marker, Found;
    if j == 0 || Marker(lines[j]) || Found(lines[j - 1], f) {
      a := j;
      assert j > 0 ==> lines[..j][j - 1] == lines[j - 1];
    } else {
      assert lines[..j][j - 1] == lines[j - 1] && lines[..j][..j - 1] == lines[..j - 1];
      a := BackGoes(lines, j - 1, f);
      assert lines[a..j + 1] == lines[a..j] + [lines[j]];
    }
  }

  /** Block i is that of the i-th line that is found. */
  ghost predicate BlockAt(lines: seq<string>, f: Flags, i: nat, block: seq<string>) {
    exists a: nat, j: nat ::
      && Goes(lines, f, a, j) && block == lines[a..j + 1]
      && Found(lines[j], f) && CountFound(lines[..j], f) == i
  }

  lemma BlockStays(lines: seq<string>, f: Flags, i: nat, block: seq<string>, l: string)
    requires BlockAt(lines, f, i, block)
    ensures BlockAt(lines + [l], f, i, block)
  {
    hide Found, CountFound, Marker;
    var a: nat, j: nat :|
      && Goes(lines, f, a, j) && block == lines[a..j + 1]
      && Found(lines[j], f) && CountFound(lines[..j], f) == i;
    var more := lines + [l];
    assert more[..j] == lines[..j] && more[a..j + 1] == lines[a..j + 1];
    assert forall k :: 0 <= k < |lines| ==> more[k] == lines[k];
    assert Goes(more, f, a, j);
  }

  /** There is a block for each line that is found, in their order, and it goes back as far as it can. */
  lemma {:induction false} BlocksGo(lines: seq<string>, f: Flags)
    ensures |Blocks(lines, f)| == CountFound(lines, f)
    ensures forall i: nat :: i < |Blocks(lines, f)| ==> BlockAt(lines, f, i, Blocks(lines, f)[i])
  {
    if lines == [] {
    } else {
      var n := |lines| - 1;
      BlocksGo(lines[..n], f);
      assert lines == lines[..n] + [lines[n]];
      forall i: nat | i < |Blocks(lines[..n], f)| ensures BlockAt(lines, f, i, Blocks(lines[..n], f)[i]) {
        BlockStays(lines[..n], f, i, Blocks(lines[..n], f)[i], lines[n]);
      }
      if Found(lines[n], f) {
        var a := BackGoes(lines, n, f);
        assert BlockAt(lines, f, CountFound(lines[..n], f), Back(lines[..n], lines[n], f));
      }
    }
  }

  // ----- the report -----

  /** Blocks stand in their order, with an empty line between any two, and before the first one if asked. */
  lemma {:induction false} ReportTwo(a: seq<seq<string>>, b: seq<seq<string>>, newline: bool)
    ensures a == [] ==> Report(a, newline) == ""
    ensures |a| == 1 ==> Report(a, newline) == (if newline then ['\n'] else "") + Unlines(a[0])
    ensures a != [] ==> Report(a + b, newline) == Report(a, newline) + Report(b, true)
  {
    if |a| == 1 {
      assert a[..0] == [];
      assert Report(a[..0], newline) == "";
      assert "" + ((if newline then ['\n'] else "") + Unlines(a[0])) == (if newline then ['\n'] else "") + Unlines(a[0]);
    }
    if a != [] {
      if b == [] {
        assert a + b == a && Report(a, newline) + "" == Report(a, newline);
      } else {
        var n := |b| - 1;
        ReportTwo(a, b[..n], newline);
        assert (a + b)[..|a| + n] == a + b[..n];
        ConcatAssociates(Report(a, newline), Report(b[..n], true), ['\n'] + Unlines(b[n]));
      }
    }
  }

  // ----- trimming -----

  /** The line as a C string: up to the first NUL. */
  predicate CutAtNul(line: string, str: string) {
    '\0' !in str && (str == line || str + ['\0'] <= line)
  }

  lemma {:induction false} CStringsCut(lines: seq<string>)
    ensures |CStrings(lines)| == |lines|
    ensures forall i :: 0 <= i < |lines| ==> CutAtNul(lines[i], CStrings(lines)[i])
  {
    if lines == [] {
    } else {
      var n := |lines| - 1;
      CStringsCut(lines[..n]);
      var k := FindChar(lines[n], '\0');
      if k < |lines[n]| {
        assert lines[n][..k + 1] == lines[n][..k] + ['\0'];
      } else {
        assert lines[n][..k] == lines[n];
      }
    }
  }

  /** A trimmed log has the lines of the log from the first to the last that is no trace, each cut at its first NUL. */
  lemma TrimmedIs(text: string) returns (cut: seq<string>, a: nat, b: nat)
    ensures |cut| == |Lines(text)| && forall i :: 0 <= i < |cut| ==> CutAtNul(Lines(text)[i], cut[i])
    ensures a <= b <= |cut| && TrimText(text) == Unlines(cut[a..b])
    ensures forall i :: 0 <= i < |cut| && (i < a || b <= i) ==> ['+'] <= cut[i]
    ensures a < b ==> !(['+'] <= cut[a]) && !(['+'] <= cut[b - 1])
  {
    cut := CStrings(Lines(text));
    CStringsCut(Lines(text));
    a, b := TrimIsMiddle(cut);
  }

  /** What is looked at: the lines from the first one that is no trace on, each cut at its first NUL. */
  lemma BodyIs(text: string) returns (cut: seq<string>, a: nat)
    ensures |cut| == |Lines(text)| && forall i :: 0 <= i < |cut| ==> CutAtNul(Lines(text)[i], cut[i])
    ensures a <= |cut| && Body(text) == cut[a..]
    ensures (forall i :: 0 <= i < a ==> ['+'] <= cut[i]) && (a < |cut| ==> !(['+'] <= cut[a]))
  {
    cut := CStrings(Lines(text));
    CStringsCut(Lines(text));
    a := DropStartIs(cut);
  }
}
