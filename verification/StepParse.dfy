/** What the parser of step.c makes of any text at all: which texts are refused, and what is read from the others. */
module StepParse {
  import opened Wrappers
  import opened Lexing
  import opened Text
  import opened Interpolation
  import opened StepRows

  // ----- rows -----

  /** Value i of a line, if it is not empty, stands in a column that there is, and can be stored in its field. */
  predicate Usable(values: seq<string>, cols: seq<string>, i: nat)
    requires i < |values|
  {
    values[i] == "" || (i < |cols| && FindField(cols[i]).Some? && Stored(FindField(cols[i]).value, values[i]).Some?)
  }

  /** Value i of a line is for field f. */
  predicate For(values: seq<string>, cols: seq<string>, i: nat, f: nat)
    requires i < |values| && f < NFIELDS
  {
    values[i] != "" && i < |cols| && cols[i] == NAMES[f]
  }

  /** From value p on, value i is the last one for field f. */
  ghost predicate LastFor(values: seq<string>, cols: seq<string>, p: nat, i: nat, f: nat)
    requires i < |values| && f < NFIELDS
  {
    p <= i && For(values, cols, i, f) && forall j: nat :: i < j < |values| ==> !For(values, cols, j, f)
  }

  /** What field f becomes from value p on: what the last value for it says, or what it was. */
  ghost predicate FieldOf(values: seq<string>, cols: seq<string>, p: nat, was: Field, f: nat, field: Field)
    requires f < NFIELDS
  {
    && (forall i: nat :: i < |values| && LastFor(values, cols, p, i, f) ==> Stored(f, values[i]) == Some(field))
    && ((forall i: nat :: p <= i < |values| ==> !For(values, cols, i, f)) ==> field == was)
  }

  /** The step after value p, if it can be used. */
  function NextStep(values: seq<string>, cols: seq<string>, p: nat, st: Step): Option<Step>
    requires p < |values|
  {
    if values[p] == "" then Some(st) else if p >= |cols| then None else SetField(st, cols[p], values[p])
  }

  lemma LineStepNext(values: seq<string>, cols: seq<string>, p: nat, st: Step)
    requires p < |values|
    ensures NextStep(values, cols, p, st).Some? <==> Usable(values, cols, p)
    ensures LineStep(values[p..], cols, p, st) ==
            match NextStep(values, cols, p, st)
            case None => None
            case Some(next) =>
              if p + 1 < |values| then LineStep(values[p + 1..], cols, p + 1, next)
              else if values[p] == "" then None
              else Some(next)
  {
    assert values[p..][0] == values[p] && values[p..][1..] == values[p + 1..];
  }

  /** A line is refused if and only if its last value is empty or some value cannot be used. */
  lemma {:induction false} LineRefused(values: seq<string>, cols: seq<string>, p: nat, st: Step)
    requires p < |values|
    ensures LineStep(values[p..], cols, p, st).Some? <==>
            values[|values| - 1] != "" && forall i: nat :: p <= i < |values| ==> Usable(values, cols, i)
    decreases |values| - p
  {
    hide LineStep, Usable;
    LineStepNext(values, cols, p, st);
    if p + 1 < |values| && NextStep(values, cols, p, st).Some? {
      LineRefused(values, cols, p + 1, NextStep(values, cols, p, st).value);
    }
  }

  lemma NextField(values: seq<string>, cols: seq<string>, p: nat, st: Step, f: nat)
    requires p < |values| && f < NFIELDS && NextStep(values, cols, p, st).Some?
    ensures var next := NextStep(values, cols, p, st).value;
            if For(values, cols, p, f) then Stored(f, values[p]) == Some(next[f]) else next[f] == st[f]
  {
    FindFieldIs(f);
  }

  /** Every field of a row is what the last value for it says, and the others are as they were. */
  lemma {:induction false} LineFields(values: seq<string>, cols: seq<string>, p: nat, st: Step, f: nat)
    requires p < |values| && f < NFIELDS && LineStep(values[p..], cols, p, st).Some?
    ensures FieldOf(values, cols, p, st[f], f, LineStep(values[p..], cols, p, st).value[f])
    decreases |values| - p
  {
    hide LineStep, NextStep, For, Stored;
    LineStepNext(values, cols, p, st);
    NextField(values, cols, p, st, f);
    var next := NextStep(values, cols, p, st).value;
    if p + 1 < |values| {
      LineFields(values, cols, p + 1, next, f);
      FieldBefore(values, cols, p, st[f], next[f], f, LineStep(values[p..], cols, p, st).value[f]);
    }
  }

  lemma FieldBefore(values: seq<string>, cols: seq<string>, p: nat, was: Field, next: Field, f: nat, field: Field)
    requires p < |values| && f < NFIELDS && FieldOf(values, cols, p + 1, next, f, field)
    requires if For(values, cols, p, f) then Stored(f, values[p]) == Some(next) else next == was
    ensures FieldOf(values, cols, p, was, f, field)
  {
    hide For, Stored;
    forall i: nat | i < |values| && LastFor(values, cols, p, i, f) ensures Stored(f, values[i]) == Some(field) {
      assert i > p ==> LastFor(values, cols, p + 1, i, f);
    }
  }

  /**
   What a row starts from, so what columns that are not there stand for: delta and skip
   are 0, the log is empty, and a row without any other field is refused.
   */
  lemma Defaults(st: Step)
    ensures Initial() == [Unknown, Unknown, Unknown, Unknown, Int(0), Str(""), Unknown, Unknown, Int(0)]
    ensures NAMES[4] == "delta" && NAMES[5] == "log" && NAMES[8] == "skip"
    ensures Validated(st) <==> forall i: nat :: i < NFIELDS && st[i] == Unknown ==> i == 4 || i == 5 || i == 8
  {}

  /** Integers are read by strtonum with the bounds of 64 bits, and everything else is taken as it is. */
  lemma StoredIff(i: nat, val: string, f: Field)
    requires i < NFIELDS
    ensures Stored(i, val) == Some(f) <==>
            if NAMES[i] in ["name", "log", "user"] then f == Str(val)
            else f.Int? && -0x8000_0000_0000_0000 <= f.i <= 0x7fff_ffff_ffff_ffff && Numeral(val, f.i)
  {
    FieldKinds(i);
    hide Numeral, Strtonum;
    if IsInteger(i) && f.Int? {
      StrtonumIff(val, INT64_MIN, INT64_MAX, f.i);
    }
  }

  lemma FieldKinds(i: nat)
    requires i < NFIELDS
    ensures NAMES[i] in ["name", "log", "user"] <==> !IsInteger(i)
  {
    NamesDistinct();
    assert NAMES[1] == "name" && NAMES[5] == "log" && NAMES[6] == "user";
  }

  // ----- texts -----

  /** The text up to the first NUL, which ends the file. */
  function BeforeNul(text: string): string {
    text[..FindChar(text, '\0')]
  }

  lemma ValueLengthUnique(s: string, n: nat)
    requires n <= |s| && (forall i :: 0 <= i < n ==> !Separator(s[i])) && (n < |s| ==> Separator(s[n]))
    ensures ValueLength(s) == n
  {}

  lemma ValueBeforeNul(s: string)
    requires s != "" && !Separator(s[0])
    ensures ValueLength(BeforeNul(s)) == ValueLength(s) <= |BeforeNul(s)|
    ensures BeforeNul(s[ValueLength(s)..]) == BeforeNul(s)[ValueLength(s)..]
    ensures BeforeNul(s)[..ValueLength(s)] == s[..ValueLength(s)]
    ensures AtEnd(s[ValueLength(s)..]) <==> AtEnd(BeforeNul(s)[ValueLength(s)..])
  {
    var n := ValueLength(s);
    NulAfter(s, n);
    var t := BeforeNul(s);
    assert forall i :: 0 <= i < |t| ==> t[i] == s[i];
    ValueLengthUnique(t, n);
  }

  lemma {:induction false} NulAfter(s: string, n: nat)
    requires n <= |s| && forall i :: 0 <= i < n ==> s[i] != '\0'
    ensures n <= FindChar(s, '\0') && FindChar(s[n..], '\0') == FindChar(s, '\0') - n
  {
    var a := s[..n];
    assert s == a + s[n..] && '\0' !in a;
    FindCharAfter(a, s[n..], '\0');
  }

  /** What follows a NUL does not matter. */
  lemma {:induction false} TokensBeforeNul(s: string)
    ensures Tokens(s) == Tokens(BeforeNul(s))
    decreases |s|
  {
    if AtEnd(s) {
    } else if s[0] == ',' || s[0] == '\n' {
      NulAfter(s, 1);
      assert BeforeNul(s)[1..] == BeforeNul(s[1..]);
      TokensBeforeNul(s[1..]);
    } else {
      var n := ValueLength(s);
      ValueBeforeNul(s);
      if !AtEnd(s[n..]) {
        TokensBeforeNul(s[n..]);
      }
    }
  }

  /** The last token is a newline exactly if the last character is, and there is none after a value. */
  lemma {:induction false} LastToken(s: string)
    requires s != "" && '\0' !in s && Tokens(s).Some?
    ensures |Tokens(s).value| >= 2
    ensures Tokens(s).value[|Tokens(s).value| - 2] == Newline <==> s[|s| - 1] == '\n'
    decreases |s|
  {
    var (tk, rest) := ReadToken(s).value;
    assert s[0] in s;
    assert forall c :: c in rest ==> c in s;
    if rest != "" {
      LastToken(rest);
      assert rest[|rest| - 1] == s[|s| - 1];
    }
  }

  /** A table of texts without separators, with a line at least. */
  predicate IsTable(table: seq<seq<string>>) {
    table != [] && NonEmpty(table) && BareTable(table)
  }

  lemma OneLine()
    ensures IsTable([[""]]) && Lines([[""]]) == ['\n']
  {
    var table: seq<seq<string>> := [[""]];
    assert table[1..] == [] && Line([""]) == ['\n'] && Lines(table[1..]) == "";
  }

  lemma LinesCons(row: seq<string>, rows: seq<seq<string>>)
    requires row != [] && NonEmpty(rows) && BareLine(row) && BareTable(rows)
    ensures IsTable([row] + rows) && Lines([row] + rows) == Line(row) + Lines(rows)
  {
    assert ([row] + rows)[1..] == rows;
  }

  lemma RestIsTable(table: seq<seq<string>>)
    requires IsTable(table)
    ensures table[0] != [] && BareLine(table[0]) && NonEmpty(table[1..]) && BareTable(table[1..])
    ensures Lines(table) == Line(table[0]) + Lines(table[1..])
  {}

  /** One more character at the front of a table. */
  lemma TableBefore(c: char, more: seq<seq<string>>) returns (table: seq<seq<string>>)
    requires IsTable(more) && c != '\0'
    ensures IsTable(table) && Lines(table) == [c] + Lines(more)
  {
    RestIsTable(more);
    if c == '\n' {
      table := [[""]] + more;
      assert Line([""]) == ['\n'];
      hide Lines, Line;
      LinesCons([""], more);
    } else {
      var row := if c == ',' then [""] + more[0] else [[c] + more[0][0]] + more[0][1..];
      LongerLine(c, more[0]);
      assert BareLine(row);
      hide Lines, Line, IsTable, BareLine, BareTable, NonEmpty;
      table := [row] + more[1..];
      LinesCons(row, more[1..]);
      ConcatAssociates([c], Line(more[0]), Lines(more[1..]));
    }
  }

  /** A text that ends with a newline is a table, and its lines hold no separators. */
  lemma {:induction false} TextIsTable(t: string) returns (table: seq<seq<string>>)
    requires t != "" && t[|t| - 1] == '\n' && '\0' !in t
    ensures IsTable(table) && Lines(table) == t
  {
    hide Lines, IsTable;
    if |t| == 1 {
      table := [[""]];
      OneLine();
      assert t == ['\n'];
    } else {
      assert forall x :: x in t[1..] ==> x in t;
      var more := TextIsTable(t[1..]);
      table := TableBefore(t[0], more);
      assert t == [t[0]] + t[1..];
    }
  }

  lemma LongerLine(c: char, values: seq<string>)
    requires values != []
    ensures c == ',' ==> Line([""] + values) == [c] + Line(values)
    ensures Line([[c] + values[0]] + values[1..]) == [c] + Line(values)
  {
    assert ([""] + values)[1..] == values;
    assert ([[c] + values[0]] + values[1..])[1..] == values[1..];
    assert "" + ([','] + Line(values)) == [','] + Line(values);
    var tail := if |values| == 1 then ['\n'] else [','] + Line(values[1..]);
    ConcatAssociates([c], values[0], tail);
  }

  // ----- files -----

  lemma {:induction false} HeaderEnds(ts: seq<Token>, cols: seq<string>)
    requires Terminated(ts) && HeaderTokens(ts, cols).Some?
    ensures var rest := HeaderTokens(ts, cols).value.1;
            rest == ts[|ts| - |rest|..] && |rest| < |ts| && ts[|ts| - |rest| - 1] == Newline
    decreases |ts|
  {
    if ts[1] == Comma {
      HeaderEnds(ts[2..], cols + [ts[0].str]);
    }
  }

  lemma {:induction false} RowEnds(ts: seq<Token>, cols: seq<string>, col: nat, st: Step)
    requires Terminated(ts) && RowTokens(ts, cols, col, st).Some?
    ensures var rest := RowTokens(ts, cols, col, st).value.1;
            rest == ts[|ts| - |rest|..] && |rest| < |ts| && ts[|ts| - |rest| - 1] == Newline
    decreases |ts|
  {
    TerminatedRest(ts);
    if ts[0] == Comma {
      RowEnds(ts[1..], cols, col + 1, st);
    } else if ts[1] == Comma {
      RowEnds(ts[2..], cols, col + 1, SetField(st, cols[col], ts[0].str).value);
    }
  }

  lemma {:induction false} RowsEnd(ts: seq<Token>, cols: seq<string>)
    requires Terminated(ts) && RowsTokens(ts, cols).Some?
    ensures |ts| > 1 ==> ts[|ts| - 2] == Newline
    decreases |ts|
  {
    if ts[0] != Eof {
      RowEnds(ts, cols, 0, Initial());
      RowsEnd(RowTokens(ts, cols, 0, Initial()).value.1, cols);
    }
  }

  /** A file that is read is empty or ends with a newline. */
  lemma FileEnds(ts: seq<Token>)
    requires Terminated(ts) && FileTokens(ts).Some?
    ensures |ts| > 1 ==> ts[|ts| - 2] == Newline
  {
    if ts[0] != Eof {
      HeaderEnds(ts, []);
      var (cols, rest) := HeaderTokens(ts, []).value;
      RowsEnd(rest, cols);
    }
  }

  /** A header with an empty name is refused. */
  lemma {:induction false} HeaderRefused(values: seq<string>, cols: seq<string>, ts: seq<Token>)
    requires values != [] && "" in values && Terminated(ts)
    ensures Terminated(LineTokens(values) + ts) && HeaderTokens(LineTokens(values) + ts, cols).None?
    decreases |values|
  {
    LineTokensTerminated(values, ts);
    var all := LineTokens(values) + ts;
    if values[0] == "" {
      assert !all[0].Value?;
    } else {
      assert values == [values[0]] + values[1..];
      var more := LineTokens(values[1..]) + ts;
      assert all == [Value(values[0]), Comma] + more;
      assert all[2..] == more;
      HeaderRefused(values[1..], cols + [values[0]], ts);
    }
  }

  /** What is read from a table of texts, the first line of which names the columns. */
  function Meaning(table: seq<seq<string>>): Option<seq<Step>>
    requires table != [] && NonEmpty(table)
  {
    if "" in table[0] then None else TableSteps(table[1..], table[0])
  }

  lemma TableMeans(table: seq<seq<string>>)
    requires IsTable(table)
    ensures ParseFile(Lines(table)) == Meaning(table)
  {
    var header, rows := table[0], table[1..];
    assert BareLine(header);
    if "" in header {
      RowsOfTable(rows, header);
      TokensOfLine(header, Lines(rows));
      var ts := Tokens(Lines(rows)).value;
      HeaderRefused(header, [], ts);
      assert (LineTokens(header) + ts)[0] != Eof;
    } else {
      ParseTable(header, rows);
    }
  }

  /**
   What any text means. A NUL ends it. An empty one has no rows; one that does not end
   with a newline is refused; every other one is a table of texts without separators,
   and is read line by line, unless a column has no name.
   */
  lemma ParseAny(text: string) returns (table: seq<seq<string>>)
    ensures var t := BeforeNul(text);
            && (t == "" ==> ParseFile(text) == Some([]))
            && (t != "" && t[|t| - 1] != '\n' ==> ParseFile(text) == None)
            && (t != "" && t[|t| - 1] == '\n' ==>
                  && IsTable(table) && Lines(table) == t
                  && ParseFile(text) == Meaning(table))
  {
    var t := BeforeNul(text);
    TokensBeforeNul(text);
    assert ParseFile(text) == ParseFile(t);
    table := [];
    if t == "" {
    } else if t[|t| - 1] != '\n' {
      if Tokens(t).Some? {
        TokensTerminated(t);
        LastToken(t);
        if FileTokens(Tokens(t).value).Some? {
          FileEnds(Tokens(t).value);
        }
      }
    } else {
      table := TextIsTable(t);
      TableMeans(table);
    }
  }
}
