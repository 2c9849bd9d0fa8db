/**
 Printing step files as step.c does, by interpolating a template for each row, and
 the round trip through the parser.
 */
module StepText {
  import opened Wrappers
  import opened Lexing
  import opened Text
  import opened Interpolation
  import opened StepRows

  /** The text of a field; one that is not set has none. */
  function FieldText(f: Field): string {
    match f
    case Unknown => ""
    case Str(s) => s
    case Int(i) => Decimal(i)
  }

  /** What a reference to a field stands for. */
  function StepEnv(st: Step): Env {
    name => match FindField(name)
      case None => None
      case Some(i) => if st[i] == Unknown then None else Some(FieldText(st[i]))
  }

  /** ${a},${b},...,${z} and a newline */
  function Template(names: seq<string>): string
    requires names != []
  {
    Reference(names[0]) + if |names| == 1 then ['\n'] else [','] + Template(names[1..])
  }

  /** The text of a row, unless it cannot be expanded. */
  function PrintRow(st: Step): Option<string> {
    var r := Expand(StepEnv(st), false, Template(NAMES), LEVELS);
    if r.status == Ok then Some(r.out) else None
  }

  function PrintRows(rows: seq<Step>): Option<string> {
    if rows == [] then Some("")
    else
      match PrintRow(rows[0])
      case None => None
      case Some(t) => match PrintRows(rows[1..]) case None => None case Some(more) => Some(t + more)
  }

  /** The text of a step file. */
  function Print(rows: seq<Step>): Option<string> {
    match PrintRows(rows) case None => None case Some(t) => Some(Line(NAMES) + t)
  }

  // ----- expansion of the template -----

  function TemplatePieces(before: string, names: seq<string>): Pieces
    requires names != []
    decreases |names|
  {
    Ref(before, names[0], if |names| == 1 then End(['\n']) else TemplatePieces([','], names[1..]))
  }

  lemma {:induction false} TemplateIs(before: string, names: seq<string>)
    requires names != [] && '$' !in before
    requires forall i :: 0 <= i < |names| ==> names[i] != "" && '}' !in names[i]
    ensures Clean(TemplatePieces(before, names)) && Whole(TemplatePieces(before, names))
    ensures Render(TemplatePieces(before, names)) == before + Template(names)
    decreases |names|
  {
    if |names| > 1 {
      TemplateIs([','], names[1..]);
      ConcatAssociates(Reference(names[0]), [','], Template(names[1..]));
    }
  }

  /** Names that stand for values without references expand to the line of these values. */
  lemma {:induction false} ExpandTemplate(env: PieceEnv, before: string, names: seq<string>, values: seq<string>, levels: nat)
    requires |names| == |values| > 0 && levels > 1
    requires forall i :: 0 <= i < |names| ==> env(names[i]) == Some(End(values[i]))
    ensures ExpandPieces(env, false, TemplatePieces(before, names), levels) == Result(before + Line(values), Ok)
    decreases |names|
  {
    var rest := if |names| == 1 then End(['\n']) else TemplatePieces([','], names[1..]);
    var tail := if |names| == 1 then ['\n'] else [','] + Line(values[1..]);
    if |names| > 1 {
      ExpandTemplate(env, [','], names[1..], values[1..], levels);
    }
    assert ExpandPieces(env, false, rest, levels) == Result(tail, Ok);
    assert ExpandPieces(env, false, End(values[0]), levels - 1) == Result(values[0], Ok);
  }

  /** A name that stands for nothing makes the expansion fail. */
  lemma {:induction false} ExpandMissing(env: PieceEnv, before: string, names: seq<string>, i: nat, levels: nat)
    requires i < |names| && env(names[i]).None?
    ensures ExpandPieces(env, false, TemplatePieces(before, names), levels).status != Ok
    decreases i
  {
    if levels > 0 && i > 0 {
      ExpandMissing(env, [','], names[1..], i - 1, levels);
    }
  }

  /** The fields of a step as text. */
  function Values(st: Step): seq<string> {
    seq(NFIELDS, i requires 0 <= i < NFIELDS => FieldText(st[i]))
  }

  /** Fields are not set or have the type of their column; integers fit in 64 bits. */
  predicate Typed(st: Step) {
    forall i :: 0 <= i < NFIELDS ==>
      match st[i]
      case Unknown => true
      case Str(_) => !IsInteger(i)
      case Int(v) => IsInteger(i) && INT64_MIN <= v <= INT64_MAX
  }

  /**
   What a row must satisfy to survive: every field is set, no string holds a
   comma, newline, NUL or dollar sign, and only the log may be empty.
   */
  predicate Storable(st: Step) {
    forall i :: 0 <= i < NFIELDS ==>
      match st[i]
      case Unknown => false
      case Str(s) => Free(s) && (s != "" || Optional(i))
      case Int(_) => true
  }

  lemma DecimalFree(i: int)
    ensures Free(Decimal(i))
  {}

  lemma FieldStands(st: Step, i: nat)
    requires Storable(st) && i < NFIELDS
    ensures Free(Values(st)[i]) && ParsedEnv(StepEnv(st))(NAMES[i]) == Some(End(Values(st)[i]))
  {
    FindFieldIs(i);
    if st[i].Int? {
      DecimalFree(st[i].i);
    }
    var t := FieldText(st[i]);
    assert '$' !in t;
    assert FindChar(t, '$') == |t|;
  }

  lemma PrintRowOf(st: Step)
    requires Storable(st)
    ensures FreeLine(Values(st)) && PrintRow(st) == Some(Line(Values(st)))
  {
    var env := ParsedEnv(StepEnv(st));
    forall i | 0 <= i < NFIELDS ensures Free(Values(st)[i]) && env(NAMES[i]) == Some(End(Values(st)[i])) {
      FieldStands(st, i);
    }
    assert |Values(st)| == NFIELDS && FreeLine(Values(st));
    hide Values, Storable, Line, Template, ExpandPieces, Clean, Render, TemplatePieces, Free, FreeLine;
    NamesClean();
    TemplateIs("", NAMES);
    NothingBefore(Template(NAMES));
    NothingBefore(Line(Values(st)));
    ParseRender(TemplatePieces("", NAMES));
    ExpandTemplate(env, "", NAMES, Values(st), LEVELS);
  }

  lemma NothingBefore(s: string)
    ensures "" + s == s
  {}

  /** A printed row had all fields set, and its text holds no dollar sign. */
  lemma PrintedRow(st: Step)
    requires PrintRow(st).Some?
    ensures forall i :: 0 <= i < NFIELDS ==> st[i] != Unknown
    ensures '$' !in PrintRow(st).value
  {
    NamesClean();
    TemplateIs("", NAMES);
    assert "" + Template(NAMES) == Template(NAMES);
    ParseRender(TemplatePieces("", NAMES));
    forall i | 0 <= i < NFIELDS ensures st[i] != Unknown {
      FindFieldIs(i);
      if st[i] == Unknown {
        ExpandMissing(ParsedEnv(StepEnv(st)), "", NAMES, i, LEVELS);
      }
    }
    ExpandTwice(StepEnv(st), Template(NAMES), LEVELS, StepEnv(st), false, LEVELS);
  }

  // ----- printing and parsing -----

  function Table(rows: seq<Step>): seq<seq<string>> {
    seq(|rows|, i requires 0 <= i < |rows| => Values(rows[i]))
  }

  lemma TableOf(rows: seq<Step>)
    requires forall i :: 0 <= i < |rows| ==> Storable(rows[i])
    ensures NonEmpty(Table(rows)) && BareTable(Table(rows))
  {
    forall i | 0 <= i < |rows| ensures BareLine(Values(rows[i])) {
      PrintRowOf(rows[i]);
    }
  }

  lemma TableRest(rows: seq<Step>)
    requires rows != []
    ensures Table(rows)[0] == Values(rows[0]) && Table(rows)[1..] == Table(rows[1..])
  {}

  lemma {:induction false} PrintRowsOf(rows: seq<Step>)
    requires (forall i :: 0 <= i < |rows| ==> Storable(rows[i])) && NonEmpty(Table(rows))
    ensures PrintRows(rows) == Some(Lines(Table(rows)))
  {
    hide PrintRow, Values, Storable, Line, FreeLine;
    if rows == [] {
    } else {
      TableRest(rows);
      PrintRowOf(rows[0]);
      PrintRowsOf(rows[1..]);
    }
  }

  /** A field is read back from its text, or is the default of an empty one. */
  lemma StoredText(st: Step, i: nat)
    requires Typed(st) && Storable(st) && i < NFIELDS
    ensures if FieldText(st[i]) == "" then st[i] == Default(i) else Stored(i, FieldText(st[i])) == Some(st[i])
    ensures IsInteger(i) ==> FieldText(st[i]) != ""
  {
    if st[i].Int? {
      StrtonumOfDecimal(st[i].i, INT64_MIN, INT64_MAX);
    }
  }

  /** The step after the first fields were read. */
  function Partial(st: Step, col: nat): Step
    requires col <= NFIELDS
  {
    st[..col] + Initial()[col..]
  }

  lemma PartialEnds(st: Step)
    ensures Partial(st, 0) == Initial() && Partial(st, NFIELDS) == st
  {}

  lemma PartialNext(st: Step, col: nat)
    requires Typed(st) && Storable(st) && col < NFIELDS
    ensures var t := FieldText(st[col]);
            && (t == "" ==> Partial(st, col + 1) == Partial(st, col) && col + 1 < NFIELDS)
            && (t != "" ==> SetField(Partial(st, col), NAMES[col], t) == Some(Partial(st, col + 1)))
  {
    hide Typed, Storable, Stored, FindField, Partial;
    StoredText(st, col);
    FindFieldIs(col);
    PartialMore(st, col);
    assert FieldText(st[col]) == "" && col + 1 == NFIELDS ==> IsInteger(col);
  }

  lemma PartialMore(st: Step, col: nat)
    requires col < NFIELDS
    ensures Partial(st, col + 1) == Partial(st, col)[col := st[col]]
    ensures st[col] == Default(col) ==> Partial(st, col + 1) == Partial(st, col)
  {
    assert Initial()[col] == Default(col);
  }

  lemma ValuesFrom(st: Step, col: nat)
    requires col < NFIELDS
    ensures var values := Values(st)[col..];
            |values| == NFIELDS - col && values[0] == FieldText(st[col]) && values[1..] == Values(st)[col + 1..]
  {}

  lemma {:induction false} LineStepOf(st: Step, col: nat)
    requires Typed(st) && Storable(st) && col < NFIELDS
    ensures LineStep(Values(st)[col..], NAMES, col, Partial(st, col)) == Some(st)
    decreases NFIELDS - col
  {
    hide Values, Partial, SetField, FieldText, Typed, Storable, Initial;
    PartialNext(st, col);
    ValuesFrom(st, col);
    NamesClean();
    if col + 1 == NFIELDS {
      PartialEnds(st);
    } else {
      LineStepOf(st, col + 1);
    }
  }

  lemma TableStepsNext(table: seq<seq<string>>, cols: seq<string>, st: Step, rows: seq<Step>)
    requires NonEmpty(table) && table != [] && LineStep(table[0], cols, 0, Initial()) == Some(st) && Validated(st)
    requires TableSteps(table[1..], cols) == Some(rows)
    ensures TableSteps(table, cols) == Some([st] + rows)
  {}

  lemma StorableValidated(st: Step)
    requires Storable(st)
    ensures Validated(st)
  {}

  lemma {:induction false} TableStepsOf(rows: seq<Step>)
    requires forall i :: 0 <= i < |rows| ==> Typed(rows[i]) && Storable(rows[i])
    requires NonEmpty(Table(rows))
    ensures TableSteps(Table(rows), NAMES) == Some(rows)
  {
    hide LineStep, Values, Typed, Storable, Validated, Partial;
    if rows == [] {
    } else {
      TableRest(rows);
      assert Typed(rows[0]) && Storable(rows[0]);
      TableStepsOf(rows[1..]);
      LineStepOf(rows[0], 0);
      PartialEnds(rows[0]);
      StorableValidated(rows[0]);
      assert Values(rows[0])[0..] == Values(rows[0]);
      TableStepsNext(Table(rows), NAMES, rows[0], rows[1..]);
      assert rows == [rows[0]] + rows[1..];
    }
  }

  /** What is printed from storable rows parses to these rows. */
  lemma ParsePrint(rows: seq<Step>)
    requires forall i :: 0 <= i < |rows| ==> Typed(rows[i]) && Storable(rows[i])
    ensures Print(rows).Some? && ParseFile(Print(rows).value) == Some(rows)
  {
    TableOf(rows);
    PrintRowsOf(rows);
    TableStepsOf(rows);
    NamesClean();
    ParseTable(NAMES, Table(rows));
  }

  // ----- what the parser can return -----

  predicate FreeToken(t: Token) {
    t.Value? ==> t.str != "" && Free(t.str)
  }

  lemma {:induction false} TokensFree(s: string)
    requires '$' !in s && Tokens(s).Some?
    ensures forall i :: 0 <= i < |Tokens(s).value| ==> FreeToken(Tokens(s).value[i])
    decreases |s|
  {
    var (tk, rest) := ReadToken(s).value;
    if tk != Eof {
      assert forall c :: c in rest ==> c in s;
      TokensFree(rest);
    }
  }

  /** Fields that are set are storable. */
  predicate PartlyStorable(st: Step) {
    forall i :: 0 <= i < NFIELDS ==>
      match st[i]
      case Unknown => !Optional(i)
      case Str(s) => !IsInteger(i) && Free(s) && (s != "" || Optional(i))
      case Int(v) => IsInteger(i) && INT64_MIN <= v <= INT64_MAX
  }

  lemma SetFieldStorable(st: Step, name: string, val: string)
    requires PartlyStorable(st) && val != "" && Free(val) && SetField(st, name, val).Some?
    ensures PartlyStorable(SetField(st, name, val).value)
  {}

  lemma {:induction false} RowTokensStorable(ts: seq<Token>, cols: seq<string>, col: nat, st: Step)
    requires Terminated(ts) && PartlyStorable(st) && RowTokens(ts, cols, col, st).Some?
    requires forall i :: 0 <= i < |ts| ==> FreeToken(ts[i])
    ensures var r := RowTokens(ts, cols, col, st).value;
            PartlyStorable(r.0) && forall i :: 0 <= i < |r.1| ==> FreeToken(r.1[i])
    decreases |ts|
  {
    if ts[0] == Comma {
      RowTokensStorable(ts[1..], cols, col + 1, st);
    } else {
      assert FreeToken(ts[0]);
      var st2 := SetField(st, cols[col], ts[0].str).value;
      SetFieldStorable(st, cols[col], ts[0].str);
      if ts[1] == Comma {
        RowTokensStorable(ts[2..], cols, col + 1, st2);
      }
    }
  }

  lemma InitialStorable()
    ensures PartlyStorable(Initial())
  {}

  lemma ValidatedStorable(st: Step)
    requires PartlyStorable(st)
    ensures Validated(st) ==> Typed(st) && Storable(st)
  {}

  lemma {:induction false} RowsTokensStorable(ts: seq<Token>, cols: seq<string>)
    requires Terminated(ts) && RowsTokens(ts, cols).Some?
    requires forall i :: 0 <= i < |ts| ==> FreeToken(ts[i])
    ensures forall i :: 0 <= i < |RowsTokens(ts, cols).value| ==>
              Typed(RowsTokens(ts, cols).value[i]) && Storable(RowsTokens(ts, cols).value[i])
    decreases |ts|
  {
    hide RowTokens, FreeToken, PartlyStorable, Typed, Storable, Validated;
    if ts[0] != Eof {
      InitialStorable();
      RowTokensStorable(ts, cols, 0, Initial());
      var (st, rest) := RowTokens(ts, cols, 0, Initial()).value;
      ValidatedStorable(st);
      RowsTokensStorable(rest, cols);
    }
  }

  lemma {:induction false} HeaderTokensFree(ts: seq<Token>, cols: seq<string>)
    requires Terminated(ts) && HeaderTokens(ts, cols).Some?
    requires forall i :: 0 <= i < |ts| ==> FreeToken(ts[i])
    ensures forall i :: 0 <= i < |HeaderTokens(ts, cols).value.1| ==> FreeToken(HeaderTokens(ts, cols).value.1[i])
    decreases |ts|
  {
    if ts[1] == Comma {
      HeaderTokensFree(ts[2..], cols + [ts[0].str]);
    }
  }

  /** Every row read from a file without dollar signs can be written back. */
  lemma ParsedStorable(text: string)
    requires '$' !in text && ParseFile(text).Some?
    ensures forall i :: 0 <= i < |ParseFile(text).value| ==>
              Typed(ParseFile(text).value[i]) && Storable(ParseFile(text).value[i])
  {
    TokensTerminated(text);
    TokensFree(text);
    var ts := Tokens(text).value;
    if ts[0] != Eof {
      HeaderTokensFree(ts, []);
      var (cols, rest) := HeaderTokens(ts, []).value;
      RowsTokensStorable(rest, cols);
    }
  }

  lemma {:induction false} PrintRowsNoDollar(rows: seq<Step>)
    requires PrintRows(rows).Some?
    ensures '$' !in PrintRows(rows).value
  {
    if rows == [] {
    } else {
      PrintedRow(rows[0]);
      PrintRowsNoDollar(rows[1..]);
    }
  }

  lemma {:induction false} LineNoDollar(values: seq<string>)
    requires values != [] && FreeLine(values)
    ensures '$' !in Line(values)
    decreases |values|
  {
    if |values| > 1 {
      LineNoDollar(values[1..]);
    }
  }

  /**
   Rows come back from the file they are printed to if and only if each of them
   is storable. Otherwise printing fails, or parsing does, or other rows come back.
   */
  lemma RoundTrip(rows: seq<Step>)
    requires forall i :: 0 <= i < |rows| ==> Typed(rows[i])
    ensures (Print(rows).Some? && ParseFile(Print(rows).value) == Some(rows)) <==>
            (forall i :: 0 <= i < |rows| ==> Storable(rows[i]))
  {
    if forall i :: 0 <= i < |rows| ==> Storable(rows[i]) {
      ParsePrint(rows);
    }
    if Print(rows).Some? && ParseFile(Print(rows).value) == Some(rows) {
      PrintRowsNoDollar(rows);
      NamesClean();
      LineNoDollar(NAMES);
      ParsedStorable(Print(rows).value);
    }
  }
}
