/**
 The step file of step.c as text: what parsing and printing mean, and that they
 undo each other. The parser is given twice, on tokens as the code works and on a
 table of texts.
 */
module StepRows {
  import opened Wrappers
  import opened Lexing
  import opened Text
  import opened Interpolation

  const INT64_MIN: int := -0x8000_0000_0000_0000
  const INT64_MAX: int := 0x7fff_ffff_ffff_ffff

  datatype Field = Unknown | Str(s: string) | Int(i: int)

  const NFIELDS: nat := 9

  /** A step has one field for each name. */
  type Step = st: seq<Field> | |st| == NFIELDS witness seq(NFIELDS, _ => Unknown)

  const STEP: nat := 0
  const NAME: nat := 1
  const USER: nat := 6
  const NAMES: seq<string> := ["step", "name", "exit", "duration", "delta", "log", "user", "time", "skip"]

  predicate IsInteger(i: nat) {
    i in [0, 2, 3, 4, 7, 8]
  }

  /** The text an optional field starts with. */
  function DefaultText(i: nat): Option<string> {
    if i == 4 || i == 8 then Some(['0']) else if i == 5 then Some("") else None
  }

  predicate Optional(i: nat) {
    DefaultText(i).Some?
  }

  // ----- fields -----

  function FindName(names: seq<string>, name: string): Option<nat> {
    if names == [] then None
    else if names[0] == name then Some(0)
    else match FindName(names[1..], name) case None => None case Some(i) => Some(i + 1)
  }

  lemma {:induction false} FindNameIs(names: seq<string>, i: nat)
    requires i < |names| && forall j, k :: 0 <= j < k < |names| ==> names[j] != names[k]
    ensures FindName(names, names[i]) == Some(i)
  {
    if i == 0 {
    } else {
      FindNameIs(names[1..], i - 1);
    }
  }

  lemma {:induction false} FindNameBound(names: seq<string>, name: string)
    ensures FindName(names, name).Some? ==> FindName(names, name).value < |names| && names[FindName(names, name).value] == name
  {
    if names != [] && names[0] != name {
      FindNameBound(names[1..], name);
    }
  }

  lemma NamesDistinct()
    ensures forall j, k :: 0 <= j < k < NFIELDS ==> NAMES[j] != NAMES[k]
  {
    var short := [NAMES[0], NAMES[1], NAMES[2], NAMES[6], NAMES[7], NAMES[8]];
    assert forall j, k :: 0 <= j < k < |short| ==> short[j][0] != short[k][0] || short[j][1] != short[k][1];
  }

  lemma NamesClean()
    ensures |NAMES| == NFIELDS
    ensures forall j :: 0 <= j < NFIELDS ==> NAMES[j] != "" && Free(NAMES[j]) && '}' !in NAMES[j]
  {}

  function FindField(name: string): (r: Option<nat>)
    ensures r.Some? ==> r.value < NFIELDS && NAMES[r.value] == name
  {
    FindNameBound(NAMES, name);
    FindName(NAMES, name)
  }

  lemma FindFieldIs(i: nat)
    requires i < NFIELDS
    ensures FindField(NAMES[i]) == Some(i)
  {
    NamesDistinct();
    FindNameIs(NAMES, i);
  }

  /** The field a text stands for; integers must fit in 64 bits. */
  function Stored(i: nat, val: string): Option<Field> {
    if !IsInteger(i) then Some(Str(val))
    else match Strtonum(val, INT64_MIN, INT64_MAX) case None => None case Some(v) => Some(Int(v))
  }

  function SetField(st: Step, name: string, val: string): Option<Step>
  {
    match FindField(name)
    case None => None
    case Some(i) => match Stored(i, val) case None => None case Some(f) => Some(st[i := f])
  }

  function Default(i: nat): Field {
    match DefaultText(i)
    case None => Unknown
    case Some(t) => if IsInteger(i) then Int(0) else Str("")
  }

  function Initial(): Step
  {
    seq(NFIELDS, i requires i >= 0 => Default(i))
  }

  /** Every required field is set. */
  predicate Validated(st: Step) {
    forall i :: 0 <= i < NFIELDS ==> Optional(i) || st[i] != Unknown
  }

  // ----- parsing tokens -----

  function HeaderTokens(ts: seq<Token>, cols: seq<string>): (r: Option<(seq<string>, seq<Token>)>)
    requires Terminated(ts)
    ensures r.Some? ==> Terminated(r.value.1) && |r.value.1| < |ts|
    decreases |ts|
  {
    if !ts[0].Value? then None
    else if ts[1] == Newline then Some((cols + [ts[0].str], ts[2..]))
    else if ts[1] == Comma then HeaderTokens(ts[2..], cols + [ts[0].str])
    else None
  }

  lemma TerminatedRest(ts: seq<Token>)
    requires Terminated(ts)
    ensures ts[0] != Eof ==> Terminated(ts[1..]) && (ts[1] != Eof ==> Terminated(ts[2..]))
  {}

  function RowTokens(ts: seq<Token>, cols: seq<string>, col: nat, st: Step): (r: Option<(Step, seq<Token>)>)
    requires Terminated(ts)
    ensures r.Some? ==> Terminated(r.value.1) && |r.value.1| < |ts|
    decreases |ts|
  {
    TerminatedRest(ts);
    if ts[0] == Comma then RowTokens(ts[1..], cols, col + 1, st)
    else if !ts[0].Value? || col >= |cols| then None
    else
      match SetField(st, cols[col], ts[0].str)
      case None => None
      case Some(st2) =>
        if ts[1] == Newline then Some((st2, ts[2..]))
        else if ts[1] == Comma then RowTokens(ts[2..], cols, col + 1, st2)
        else None
  }

  function RowsTokens(ts: seq<Token>, cols: seq<string>): Option<seq<Step>>
    requires Terminated(ts)
    decreases |ts|
  {
    if ts[0] == Eof then Some([])
    else
      match RowTokens(ts, cols, 0, Initial())
      case None => None
      case Some((st, rest)) =>
        if !Validated(st) then None
        else match RowsTokens(rest, cols) case None => None case Some(rows) => Some([st] + rows)
  }

  function FileTokens(ts: seq<Token>): Option<seq<Step>>
    requires Terminated(ts)
  {
    if ts[0] == Eof then Some([])
    else
      match HeaderTokens(ts, [])
      case None => None
      case Some((cols, rest)) => RowsTokens(rest, cols)
  }

  /** The rows of a step file, unless it is malformed. */
  function ParseFile(text: string): Option<seq<Step>> {
    TokensTerminated(text);
    match Tokens(text) case None => None case Some(ts) => FileTokens(ts)
  }

  // ----- tables -----

  /** Holds no character that separates values or ends the file. */
  predicate Bare(s: string) {
    forall c :: c in s ==> c != ',' && c != '\n' && c != '\0'
  }

  /** Nor one that starts a reference. */
  predicate Free(s: string) {
    Bare(s) && '$' !in s
  }

  predicate BareLine(values: seq<string>) {
    forall i :: 0 <= i < |values| ==> Bare(values[i])
  }

  predicate FreeLine(values: seq<string>) {
    forall i :: 0 <= i < |values| ==> Free(values[i])
  }

  predicate NonEmpty(table: seq<seq<string>>) {
    forall i :: 0 <= i < |table| ==> table[i] != []
  }

  predicate BareTable(table: seq<seq<string>>) {
    forall i :: 0 <= i < |table| ==> BareLine(table[i])
  }

  /** A line of values. */
  function Line(values: seq<string>): string
    requires values != []
  {
    values[0] + if |values| == 1 then ['\n'] else [','] + Line(values[1..])
  }

  function Lines(table: seq<seq<string>>): string
    requires NonEmpty(table)
  {
    if table == [] then "" else Line(table[0]) + Lines(table[1..])
  }

  /** The step a line of values stands for: empty values are skipped, the last is not empty. */
  function LineStep(values: seq<string>, cols: seq<string>, col: nat, st: Step): Option<Step>
    requires values != []
  {
    var next := if values[0] == "" then Some(st)
                else if col >= |cols| then None
                else SetField(st, cols[col], values[0]);
    if next.None? then None
    else if |values| > 1 then LineStep(values[1..], cols, col + 1, next.value)
    else if values[0] == "" then None
    else next
  }

  function TableSteps(table: seq<seq<string>>, cols: seq<string>): Option<seq<Step>>
    requires NonEmpty(table)
  {
    if table == [] then Some([])
    else
      match LineStep(table[0], cols, 0, Initial())
      case None => None
      case Some(st) =>
        if !Validated(st) then None
        else match TableSteps(table[1..], cols) case None => None case Some(rows) => Some([st] + rows)
  }

  /** The tokens of a line of values. */
  function LineTokens(values: seq<string>): seq<Token>
    requires values != []
  {
    (if values[0] == "" then [] else [Value(values[0])]) +
    if |values| == 1 then [Newline] else [Comma] + LineTokens(values[1..])
  }

  lemma ValueLengthIs(v: string, rest: string)
    requires Bare(v) && rest != "" && Separator(rest[0])
    ensures ValueLength(v + rest) == |v|
  {
    var s := v + rest;
    var n := ValueLength(s);
    assert forall i :: 0 <= i < |v| ==> s[i] in v;
    assert s[|v|] == rest[0];
  }

  lemma TokensOfValue(v: string, rest: string)
    requires Bare(v) && rest != "" && (rest[0] == ',' || rest[0] == '\n') && Tokens(rest).Some?
    ensures Tokens(v + rest) == Some((if v == "" then [] else [Value(v)]) + Tokens(rest).value)
  {
    if v == "" {
      assert v + rest == rest;
      assert [] + Tokens(rest).value == Tokens(rest).value;
    } else {
      ValueLengthIs(v, rest);
      assert v[0] in v && (v + rest)[0] == v[0];
      assert (v + rest)[..|v|] == v && (v + rest)[|v|..] == rest;
    }
  }

  lemma TokensOfChar(c: char, rest: string)
    requires (c == ',' || c == '\n') && Tokens(rest).Some?
    ensures Tokens([c] + rest) == Some([if c == ',' then Comma else Newline] + Tokens(rest).value)
  {
    assert ([c] + rest)[1..] == rest;
  }

  lemma {:induction false} TokensOfLine(values: seq<string>, text: string)
    requires values != [] && BareLine(values) && Tokens(text).Some?
    ensures Tokens(Line(values) + text) == Some(LineTokens(values) + Tokens(text).value)
    decreases |values|
  {
    var v, ts := values[0], Tokens(text).value;
    if |values| == 1 {
      assert "" + text == text && [] + ts == ts;
      assert ['\n'] + "" == ['\n'] && [Newline] + [] == [Newline];
      TokensOfEnd(v, ['\n'], "", [Newline], [], text);
    } else {
      TokensOfLine(values[1..], text);
      TokensOfEnd(v, [','], Line(values[1..]), [Comma], LineTokens(values[1..]), text);
    }
  }

  /** A value, a separator and more text in front of a text. */
  lemma TokensOfEnd(v: string, sep: string, more: string, tsep: seq<Token>, mts: seq<Token>, text: string)
    requires Bare(v) && Tokens(text).Some? && Tokens(more + text) == Some(mts + Tokens(text).value)
    requires (sep == [','] && tsep == [Comma]) || (sep == ['\n'] && tsep == [Newline])
    ensures Tokens((v + (sep + more)) + text) ==
            Some(((if v == "" then [] else [Value(v)]) + (tsep + mts)) + Tokens(text).value)
  {
    var head: seq<Token> := if v == "" then [] else [Value(v)];
    var ts := Tokens(text).value;
    ConcatAssociates(v, sep + more, text);
    ConcatAssociates(sep, more, text);
    ConcatAssociates(head, tsep + mts, ts);
    ConcatAssociates(tsep, mts, ts);
    TokensOfChar(sep[0], more + text);
    TokensOfValue(v, sep + (more + text));
  }

  lemma {:induction false} LineTokensTerminated(values: seq<string>, ts: seq<Token>)
    requires values != [] && Terminated(ts)
    ensures Terminated(LineTokens(values) + ts)
    decreases |values|
  {
    if |values| > 1 {
      LineTokensTerminated(values[1..], ts);
      assert Terminated([Comma] + (LineTokens(values[1..]) + ts));
      assert LineTokens(values) + ts ==
             (if values[0] == "" then [] else [Value(values[0])]) + ([Comma] + (LineTokens(values[1..]) + ts));
    }
  }

  lemma {:induction false} RowOfLine(values: seq<string>, cols: seq<string>, col: nat, st: Step, ts: seq<Token>)
    requires values != [] && Terminated(ts)
    ensures Terminated(LineTokens(values) + ts)
    ensures RowTokens(LineTokens(values) + ts, cols, col, st) ==
            match LineStep(values, cols, col, st) case None => None case Some(r) => Some((r, ts))
    decreases |values|
  {
    LineTokensTerminated(values, ts);
    var all := LineTokens(values) + ts;
    if |values| == 1 {
      if values[0] != "" {
        assert all == [Value(values[0]), Newline] + ts;
        assert all[2..] == ts;
      } else {
        assert all == [Newline] + ts;
      }
    } else {
      var more := LineTokens(values[1..]) + ts;
      if values[0] == "" {
        assert all == [Comma] + more;
        assert all[1..] == more;
        RowOfLine(values[1..], cols, col + 1, st, ts);
      } else {
        assert all == [Value(values[0]), Comma] + more;
        assert all[2..] == more;
        if col < |cols| && SetField(st, cols[col], values[0]).Some? {
          RowOfLine(values[1..], cols, col + 1, SetField(st, cols[col], values[0]).value, ts);
        }
      }
    }
  }

  lemma {:induction false} HeaderOfLine(values: seq<string>, cols: seq<string>, ts: seq<Token>)
    requires values != [] && (forall i :: 0 <= i < |values| ==> values[i] != "") && Terminated(ts)
    ensures Terminated(LineTokens(values) + ts)
    ensures HeaderTokens(LineTokens(values) + ts, cols) == Some((cols + values, ts))
    decreases |values|
  {
    LineTokensTerminated(values, ts);
    var all := LineTokens(values) + ts;
    if |values| == 1 {
      assert all == [Value(values[0]), Newline] + ts;
      assert all[2..] == ts;
      assert values == [values[0]];
    } else {
      var more := LineTokens(values[1..]) + ts;
      assert all == [Value(values[0]), Comma] + more;
      assert all[2..] == more;
      HeaderOfLine(values[1..], cols + [values[0]], ts);
      assert (cols + [values[0]]) + values[1..] == cols + values;
    }
  }

  lemma {:induction false} RowsOfTable(table: seq<seq<string>>, cols: seq<string>)
    requires NonEmpty(table) && BareTable(table)
    ensures Tokens(Lines(table)).Some? && Terminated(Tokens(Lines(table)).value)
    ensures RowsTokens(Tokens(Lines(table)).value, cols) == TableSteps(table, cols)
  {
    if table == [] {
    } else {
      RowsOfTable(table[1..], cols);
      var ts := Tokens(Lines(table[1..])).value;
      TokensOfLine(table[0], Lines(table[1..]));
      RowOfLine(table[0], cols, 0, Initial(), ts);
      var all := LineTokens(table[0]) + ts;
      assert all[0] != Eof;
    }
  }

  /** Parsing the text of a table is reading the table line by line. */
  lemma ParseTable(header: seq<string>, table: seq<seq<string>>)
    requires header != [] && BareLine(header) && forall i :: 0 <= i < |header| ==> header[i] != ""
    requires NonEmpty(table) && BareTable(table)
    ensures ParseFile(Line(header) + Lines(table)) == TableSteps(table, header)
  {
    RowsOfTable(table, header);
    var ts := Tokens(Lines(table)).value;
    TokensOfLine(header, Lines(table));
    HeaderOfLine(header, [], ts);
    assert [] + header == header;
    assert (LineTokens(header) + ts)[0] == Value(header[0]);
  }
}
