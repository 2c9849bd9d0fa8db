/**
 step.c and robsd-step.c as code: the vectors of columns and steps are fields
 that parsing, sorting and updating change in place. `content` is the file.
 */
module StepFile {
  import opened Wrappers
  import opened Lexing
  import opened Interpolation
  import opened Text
  import opened StepRows
  import opened StepText
  import opened StepUpsert

  class StepFile {
    var content: string
    var columns: seq<string>
    var steps: seq<Step>

    constructor (content: string)
      ensures this.content == content && columns == [] && steps == []
    {
      this.content := content;
      columns, steps := [], [];
    }

    /** Stores text in field `name` of step k; fails for unknown names and bad integers. */
    method StepSetField(k: nat, name: string, val: string) returns (error: bool)
      requires k < |steps|
      modifies `steps
      ensures |steps| == |old(steps)| && steps == old(steps)[k := steps[k]]
      ensures error == SetField(old(steps)[k], name, val).None?
      ensures !error ==> steps == old(steps)[k := SetField(old(steps)[k], name, val).value]
    {
      var fd := FindField(name);
      if fd.None? {
        return true;
      }
      var field := Stored(fd.value, val);
      if field.None? {
        // The type is set before the conversion, and the old number stays.
        var was := steps[k][fd.value];
        steps := steps[k := steps[k][fd.value := Int(if was.Int? then was.i else 0)]];
        return true;
      }
      steps := steps[k := steps[k][fd.value := field.value]];
      return false;
    }

    /** Adds a step whose optional fields have their defaults. */
    method StepAlloc()
      modifies `steps
      ensures steps == old(steps) + [Initial()]
    {
      ghost var was := steps;
      steps := steps + [seq(NFIELDS, _ => Unknown)];
      var k := |steps| - 1;
      var i := 0;
      while i < NFIELDS
        invariant i <= NFIELDS && |steps| == |was| + 1 && k == |was| && steps[..k] == was
        invariant steps[k] == Initial()[..i] + seq(NFIELDS - i, _ => Unknown)
      {
        DefaultStored(i);
        var text := DefaultText(i);
        if text.Some? {
          var error := StepSetField(k, NAMES[i], text.value);
        }
        assert Initial()[i] == Default(i);
        i := i + 1;
      }
      assert steps[k] == Initial();
    }

    method ParseHeader(lx: Lexer) returns (error: bool)
      requires lx.Valid() && lx.tk < |lx.tokens| - 1 && lx.Ahead()[0] != Eof && columns == []
      modifies lx, `columns
      ensures lx.Valid()
      ensures error == HeaderTokens(old(lx.Ahead()), []).None?
      ensures !error ==> HeaderTokens(old(lx.Ahead()), []) == Some((columns, lx.Ahead())) && lx.tk < |lx.tokens| - 1
    {
      while true
        invariant lx.Valid() && lx.tk < |lx.tokens| - 1
        invariant HeaderTokens(old(lx.Ahead()), []) == HeaderTokens(lx.Ahead(), columns)
        decreases |lx.Ahead()|
      {
        var ok, col := lx.Expect((t: Token) => t.Value?);
        if !ok {
          return true;
        }
        columns := columns + [col.str];
        var newline := lx.If(Newline);
        if newline {
          return false;
        }
        ok, col := lx.Expect(t => t == Comma);
        if !ok {
          return true;
        }
      }
    }

    method ParseRow(lx: Lexer) returns (error: bool)
      requires lx.Valid() && lx.tk < |lx.tokens| - 1
      modifies lx, `steps
      ensures lx.Valid()
      ensures var r := RowTokens(old(lx.Ahead()), columns, 0, Initial());
              && error == (r.None? || !Validated(r.value.0))
              && (!error ==> steps == old(steps) + [r.value.0] && lx.Ahead() == r.value.1 && lx.tk < |lx.tokens| - 1)
    {
      ghost var was := steps;
      ghost var result := RowTokens(lx.Ahead(), columns, 0, Initial());
      StepAlloc();
      var k := |steps| - 1;
      var col := 0;
      while true
        invariant lx.Valid() && lx.tk < |lx.tokens| - 1
        invariant k == |was| && |steps| == k + 1 && steps == was + [steps[k]]
        invariant result == RowTokens(lx.Ahead(), columns, col, steps[k])
        decreases |lx.Ahead()|
      {
        var comma := lx.If(Comma);
        if comma {
          col := col + 1;
          continue;
        }
        var done;
        ghost var st := steps[k];
        error, done := ParseValue(lx, k, col);
        LastReplaced(was, st, steps[k]);
        if error {
          return true;
        }
        if done {
          break;
        }
        col := col + 1;
      }
      error := StepValidate(k);
    }

    /** A value of a row and the separator after it, which ends the row if it is a newline. */
    method ParseValue(lx: Lexer, k: nat, col: nat) returns (error: bool, done: bool)
      requires lx.Valid() && lx.tk < |lx.tokens| - 1 && lx.Ahead()[0] != Comma && k < |steps|
      modifies lx, `steps
      ensures lx.Valid() && |steps| == |old(steps)| && steps == old(steps)[k := steps[k]]
      ensures var r := RowTokens(old(lx.Ahead()), columns, col, old(steps)[k]);
              if error then r.None?
              else
                && lx.tk < |lx.tokens| - 1 && |lx.Ahead()| < |old(lx.Ahead())|
                && r == if done then Some((steps[k], lx.Ahead())) else RowTokens(lx.Ahead(), columns, col + 1, steps[k])
    {
      var ok, val := lx.Expect((t: Token) => t.Value?);
      if !ok {
        return true, false;
      }
      if col >= |columns| {
        return true, false;
      }
      var key := columns[col];
      if FindField(key).None? {
        return true, false;
      }
      error := StepSetField(k, key, val.str);
      if error {
        return true, false;
      }
      done := lx.If(Newline);
      if done {
        return;
      }
      ok, val := lx.Expect(t => t == Comma);
      error := !ok;
    }

    method StepValidate(k: nat) returns (error: bool)
      requires k < |steps|
      ensures error == !Validated(steps[k])
    {
      error := false;
      var i := 0;
      while i < NFIELDS
        invariant i <= NFIELDS
        invariant error == exists j :: 0 <= j < i && !Optional(j) && steps[k][j] == Unknown
      {
        if !Optional(i) && steps[k][i] == Unknown {
          error := true;
        }
        i := i + 1;
      }
    }

    /** Reads the file into a new object. */
    method Parse() returns (error: bool)
      requires columns == [] && steps == []
      modifies `columns, `steps
      ensures error == ParseFile(content).None?
      ensures !error ==> ParseFile(content) == Some(steps)
    {
      var ts := Scan(content);
      if ts.None? {
        return true;
      }
      TokensTerminated(content);
      var lx := new Lexer(ts.value);
      assert lx.Ahead() == ts.value;
      var eof := lx.PeekEof();
      if eof {
        return false;
      }
      error := ParseHeader(lx);
      if error {
        return true;
      }
      error := ParseRows(lx);
    }

    method ParseRows(lx: Lexer) returns (error: bool)
      requires lx.Valid() && lx.tk < |lx.tokens| - 1 && steps == []
      modifies lx, `steps
      ensures error == RowsTokens(old(lx.Ahead()), columns).None?
      ensures !error ==> RowsTokens(old(lx.Ahead()), columns) == Some(steps)
    {
      hide RowTokens, RowsTokens, Validated, After;
      ghost var result := RowsTokens(lx.Ahead(), columns);
      AfterNothing(result);
      while true
        invariant lx.Valid() && lx.tk < |lx.tokens| - 1
        invariant result == After(steps, RowsTokens(lx.Ahead(), columns))
        decreases |lx.Ahead()|
      {
        var eof := lx.PeekEof();
        if eof {
          RowsEnd(lx.Ahead(), columns, steps);
          return false;
        }
        RowsStep(lx.Ahead(), columns, steps);
        error := ParseRow(lx);
        if error {
          return true;
        }
      }
    }

    /** The template of a row. */
    method RowTemplate() returns (bf: string)
      ensures bf == Template(NAMES)
    {
      hide Template, TemplateRest, Reference;
      bf := "";
      var i := 0;
      TemplateEnds();
      while i < NFIELDS
        invariant i <= NFIELDS && bf + TemplateRest(i) == Template(NAMES)
      {
        var item := (if i > 0 then [','] else "") + Reference(NAMES[i]);
        TemplateNext(i);
        ConcatAssociates(bf, item, TemplateRest(i + 1));
        bf := bf + item;
        i := i + 1;
      }
      bf := bf + ['\n'];
    }

    /** Appends a row; fails, after a part of it, if a reference cannot be expanded. */
    method StepSerialize(k: nat, out: OutBuffer) returns (error: bool)
      requires k < |steps|
      modifies out
      ensures error == PrintRow(steps[k]).None?
      ensures !error ==> out.data == old(out.data) + PrintRow(steps[k]).value
    {
      var template := RowTemplate();
      hide ExpandPieces, Template;
      var c := new Context(StepEnv(steps[k]), false);
      error := Interpolate(c, out, template);
    }

    method StepsSort()
      modifies `steps
      ensures SortedPermutation(old(steps), steps)
    {
      SortSorts(steps);
      steps := Sort(steps);
    }

    /** Appends the names of the columns. */
    static method StepsHeader(bf: OutBuffer)
      modifies bf
      ensures bf.data == old(bf.data) + Line(NAMES)
    {
      hide Line, HeaderRest;
      var i := 0;
      ghost var start := bf.data;
      ghost var text := "";
      EmptyBefore(Line(NAMES));
      EmptyBefore(start);
      HeaderEnds();
      while i < NFIELDS
        invariant i <= NFIELDS && bf.data == start + text
        invariant text + HeaderRest(i) == Line(NAMES)
      {
        var item := (if i > 0 then [','] else "") + NAMES[i];
        HeaderNext(i);
        ConcatAssociates(text, item, HeaderRest(i + 1));
        ConcatAssociates(start, text, item);
        bf.Puts(item);
        text := text + item;
        i := i + 1;
      }
      ConcatAssociates(start, text, ['\n']);
      bf.Puts(['\n']);
    }

    /** Sorts the rows and prints them over the file, which is not touched unless all can be printed. */
    method StepsWrite() returns (error: bool)
      modifies `steps, `content
      ensures SortedPermutation(old(steps), steps) && Saved(old(content), steps, content, error)
    {
      hide SortedPermutation, PrintRows, Line;
      StepsSort();
      var bf := new OutBuffer();
      StepsHeader(bf);
      EmptyBefore(Line(NAMES));
      error := StepsSerialize(bf);
      if error {
        return;
      }
      content := bf.data;
    }

    method StepsSerialize(bf: OutBuffer) returns (error: bool)
      modifies bf
      ensures error == PrintRows(steps).None?
      ensures !error ==> bf.data == old(bf.data) + PrintRows(steps).value
    {
      var i := 0;
      ghost var text := TextAfter(bf.data, PrintRows(steps));
      assert steps[0..] == steps;
      while i < |steps|
        invariant i <= |steps| && text == TextAfter(bf.data, PrintRows(steps[i..]))
      {
        RowsTextStep(steps, i, bf.data);
        error := StepSerialize(i, bf);
        if error {
          return;
        }
        i := i + 1;
      }
      assert bf.data + "" == bf.data;
      error := false;
    }

    /** robsd-step -W for a file that was just parsed. */
    method ActionWrite(id: int, kvs: seq<string>) returns (error: bool)
      requires ParseFile(content) == Some(steps)
      modifies `steps, `content
      ensures Written(old(content), id, kvs, content, error)
    {
      ghost var rows := steps;
      var k := FindOrAlloc(id);
      ghost var start := steps;
      error := StepSetKeyvals(k, kvs);
      if error {
        return;
      }
      assert Merge(rows, id, kvs) == Some(steps) by {
        if k == |rows| {
          LastReplaced(rows, Base(id), steps[k]);
        }
      }
      error := StepsWrite();
    }

    /** Finds the row with an id, or adds one. */
    method FindOrAlloc(id: int) returns (k: nat)
      modifies `steps
      ensures match FindById(old(steps), id)
              case Some(i) => k == i && steps == old(steps)
              case None => k == |old(steps)| && steps == old(steps) + [Base(id)]
    {
      var found := FindById(steps, id);
      if found.Some? {
        return found.value;
      }
      k := |steps|;
      ghost var rows := steps;
      StepAlloc();
      LastReplaced(rows, Initial(), Base(id));
      steps := steps[k := steps[k][STEP := Int(id)]];
    }

    method StepSetKeyvals(k: nat, kvs: seq<string>) returns (error: bool)
      requires k < |steps|
      modifies `steps
      ensures |steps| == |old(steps)|
      ensures error == SetAll(old(steps)[k], kvs).None?
      ensures !error ==> steps == old(steps)[k := SetAll(old(steps)[k], kvs).value]
    {
      ghost var start := steps;
      var i := 0;
      assert kvs[0..] == kvs;
      while i < |kvs|
        invariant i <= |kvs| && k < |steps| == |start| && steps == start[k := steps[k]]
        invariant SetAll(start[k], kvs) == SetAll(steps[k], kvs[i..])
      {
        assert kvs[i..][0] == kvs[i] && kvs[i..][1..] == kvs[i + 1..];
        error := StepSetKeyval(k, kvs[i]);
        if error {
          return;
        }
        i := i + 1;
      }
      error := false;
    }

    method StepSetKeyval(k: nat, kv: string) returns (error: bool)
      requires k < |steps|
      modifies `steps
      ensures |steps| == |old(steps)| && steps == old(steps)[k := steps[k]]
      ensures error == SetKeyval(old(steps)[k], kv).None?
      ensures !error ==> steps[k] == SetKeyval(old(steps)[k], kv).value
    {
      var val := FindChar(kv, '=');
      if val == |kv| {
        return true;
      }
      hide FindChar, SetField;
      error := StepSetField(k, kv[..val], kv[val + 1..]);
    }

    /** The step that robsd-step -R shows: by name, or by position from either end. */
    method StepsRead(name: Option<string>, id: int) returns (r: Option<Step>)
      requires name.None? || id == 0
      ensures name.None? ==> r == ReadAt(steps, id)
      ensures name.Some? && r.None? ==> forall i :: 0 <= i < |steps| ==> steps[i][NAME] != Str(name.value)
      ensures name.Some? && r.Some? ==>
                exists i :: 0 <= i < |steps| && steps[i] == r.value && r.value[NAME] == Str(name.value) &&
                            forall j :: 0 <= j < i ==> steps[j][NAME] != Str(name.value)
    {
      var nsteps := |steps|;
      if name.Some? {
        var i := 0;
        while i < nsteps
          invariant i <= nsteps && forall j :: 0 <= j < i ==> steps[j][NAME] != Str(name.value)
        {
          if steps[i][NAME] == Str(name.value) {
            return Some(steps[i]);
          }
          i := i + 1;
        }
        return None;
      }
      if id > 0 && id - 1 < nsteps {
        return Some(steps[id - 1]);
      }
      if id < 0 && -id <= nsteps {
        return Some(steps[nsteps + id]);
      }
      return None;
    }
  }

  function After(rows: seq<Step>, more: Option<seq<Step>>): Option<seq<Step>> {
    match more case None => None case Some(m) => Some(rows + m)
  }

  lemma AfterNothing(more: Option<seq<Step>>)
    ensures After([], more) == more
  {
    if more.Some? {
      assert [] + more.value == more.value;
    }
  }

  lemma RowsEnd(ts: seq<Token>, cols: seq<string>, rows: seq<Step>)
    requires Terminated(ts) && ts[0] == Eof
    ensures After(rows, RowsTokens(ts, cols)) == Some(rows)
  {
    assert rows + [] == rows;
  }

  lemma RowsStep(ts: seq<Token>, cols: seq<string>, rows: seq<Step>)
    requires Terminated(ts) && ts[0] != Eof
    ensures var r := RowTokens(ts, cols, 0, Initial());
            After(rows, RowsTokens(ts, cols)) ==
            if r.None? || !Validated(r.value.0) then None else After(rows + [r.value.0], RowsTokens(r.value.1, cols))
  {
    var r := RowTokens(ts, cols, 0, Initial());
    if r.Some? && RowsTokens(r.value.1, cols).Some? {
      ConcatAssociates(rows, [r.value.0], RowsTokens(r.value.1, cols).value);
    }
  }

  lemma EmptyBefore(s: string)
    ensures "" + s == s && s + "" == s
  {}

  /** What follows the first i names in the header. */
  function HeaderRest(i: nat): string
    requires i <= NFIELDS
  {
    if i == NFIELDS then ['\n'] else (if i > 0 then [','] else "") + Line(NAMES[i..])
  }

  lemma HeaderEnds()
    ensures HeaderRest(0) == Line(NAMES) && HeaderRest(NFIELDS) == ['\n']
  {
    assert NAMES[0..] == NAMES;
    EmptyBefore(Line(NAMES));
  }

  lemma HeaderNext(i: nat)
    requires i < NFIELDS
    ensures HeaderRest(i) == ((if i > 0 then [','] else "") + NAMES[i]) + HeaderRest(i + 1)
  {
    assert NAMES[i..][0] == NAMES[i] && NAMES[i..][1..] == NAMES[i + 1..];
    ConcatAssociates(if i > 0 then [','] else "", NAMES[i], HeaderRest(i + 1));
  }

  function TextAfter(data: string, more: Option<string>): Option<string> {
    match more case None => None case Some(t) => Some(data + t)
  }

  lemma RowsTextStep(rows: seq<Step>, i: nat, data: string)
    requires i < |rows|
    ensures TextAfter(data, PrintRows(rows[i..])) ==
            if PrintRow(rows[i]).None? then None else TextAfter(data + PrintRow(rows[i]).value, PrintRows(rows[i + 1..]))
  {
    assert rows[i..][0] == rows[i] && rows[i..][1..] == rows[i + 1..];
    if PrintRow(rows[i]).Some? && PrintRows(rows[i + 1..]).Some? {
      ConcatAssociates(data, PrintRow(rows[i]).value, PrintRows(rows[i + 1..]).value);
    }
  }

  /** What follows the first i references in the template. */
  function TemplateRest(i: nat): string
    requires i <= NFIELDS
  {
    if i == NFIELDS then ['\n'] else (if i > 0 then [','] else "") + Template(NAMES[i..])
  }

  lemma TemplateEnds()
    ensures "" + TemplateRest(0) == Template(NAMES) && TemplateRest(NFIELDS) == ['\n']
  {
    assert NAMES[0..] == NAMES;
    EmptyBefore(Template(NAMES));
    EmptyBefore(TemplateRest(0));
  }

  lemma TemplateNext(i: nat)
    requires i < NFIELDS
    ensures TemplateRest(i) == ((if i > 0 then [','] else "") + Reference(NAMES[i])) + TemplateRest(i + 1)
  {
    assert NAMES[i..][0] == NAMES[i] && NAMES[i..][1..] == NAMES[i + 1..];
    ConcatAssociates(if i > 0 then [','] else "", Reference(NAMES[i]), TemplateRest(i + 1));
  }

  lemma LastReplaced(rows: seq<Step>, a: Step, b: Step)
    ensures (rows + [a])[|rows| := b] == rows + [b]
  {}

  lemma DefaultStored(i: nat)
    requires i < NFIELDS
    ensures FindField(NAMES[i]) == Some(i)
    ensures DefaultText(i).Some? ==> Stored(i, DefaultText(i).value) == Some(Default(i))
    ensures DefaultText(i).None? ==> Default(i) == Unknown
  {
    FindFieldIs(i);
    if IsInteger(i) && DefaultText(i).Some? {
      StrtonumOfDecimal(0, INT64_MIN, INT64_MAX);
      assert Decimal(0) == ['0'];
    }
  }
}
