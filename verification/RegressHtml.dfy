/** regress-html.c: the table of runs, where every run must stand in the column of its invocation. */
module RegressHtml {
  import opened Wrappers

  /** A run has the number of its invocation. */
  datatype Run = Run(time: int, of: nat, status: string)

  /** A cell of a row: nothing, or a run. */
  type Cell = Option<Run>

  // ----- the walk -----

  /** The cells of a row for runs and the times of the columns; None if the walk leaves the columns. */
  function Cells(columns: seq<int>, runs: seq<Run>): Option<seq<Cell>>
    decreases |columns|
  {
    if runs == [] then Some([])
    else if columns == [] then None
    else if columns[0] > runs[0].time then Cons(None, Cells(columns[1..], runs))
    else Cons(Some(runs[0]), Cells(columns[1..], runs[1..]))
  }

  function Cons(c: Cell, cells: Option<seq<Cell>>): Option<seq<Cell>> {
    match cells case None => None case Some(more) => Some([c] + more)
  }

  /** The walk over a row; stuck means that it would read behind the last column. */
  method RenderSuite(columns: seq<int>, runs: seq<Run>) returns (cells: seq<Cell>, stuck: bool)
    ensures stuck <==> Cells(columns, runs).None?
    ensures !stuck ==> Some(cells) == Cells(columns, runs)
  {
    cells, stuck := [], false;
    var ri := 0;
    assert columns[0..] == columns && runs[0..] == runs;
    Prefix([], Cells(columns, runs));
    var i := 0;
    while i < |runs|
      invariant i <= |runs| && ri <= |columns| && Cells(columns, runs) == After(cells, Cells(columns[ri..], runs[i..]))
    {
      var run := runs[i];
      while ri < |columns| && columns[ri] > run.time
        invariant ri <= |columns| && Cells(columns, runs) == After(cells, Cells(columns[ri..], runs[i..]))
      {
        CellStep(columns, ri, runs, i, cells);
        cells, ri := cells + [None], ri + 1;
      }
      if ri == |columns| {
        return cells, true;
      }
      CellStep(columns, ri, runs, i, cells);
      cells, ri := cells + [Some(run)], ri + 1;
      i := i + 1;
    }
    assert cells + [] == cells;
  }

  function After(cells: seq<Cell>, more: Option<seq<Cell>>): Option<seq<Cell>> {
    match more case None => None case Some(m) => Some(cells + m)
  }

  lemma Prefix(cells: seq<Cell>, more: Option<seq<Cell>>)
    ensures After([], more) == more
    ensures forall c :: After(cells, Cons(c, more)) == After(cells + [c], more)
  {
    if more.Some? {
      assert [] + more.value == more.value;
      forall c ensures cells + ([c] + more.value) == (cells + [c]) + more.value {}
    }
  }

  lemma CellStep(columns: seq<int>, ri: nat, runs: seq<Run>, i: nat, cells: seq<Cell>)
    requires ri < |columns| && i < |runs|
    ensures After(cells, Cells(columns[ri..], runs[i..])) ==
            if columns[ri] > runs[i].time then After(cells + [None], Cells(columns[ri + 1..], runs[i..]))
            else After(cells + [Some(runs[i])], Cells(columns[ri + 1..], runs[i + 1..]))
  {
    assert columns[ri..][1..] == columns[ri + 1..] && runs[i..][1..] == runs[i + 1..];
    Prefix(cells, Cells(columns[ri + 1..], runs[i..]));
    Prefix(cells, Cells(columns[ri + 1..], runs[i + 1..]));
  }

  // ----- alignment -----

  predicate Descending(times: seq<int>) {
    forall i, j :: 0 <= i < j < |times| ==> times[i] >= times[j]
  }

  function Times(runs: seq<Run>): seq<int> {
    if runs == [] then [] else [runs[0].time] + Times(runs[1..])
  }

  /** No run stands under a column with another time. */
  predicate Aligned(columns: seq<int>, cells: Option<seq<Cell>>) {
    cells.Some? && |cells.value| <= |columns| &&
    forall i :: 0 <= i < |cells.value| && cells.value[i].Some? ==> cells.value[i].value.time == columns[i]
  }

  /** The runs that the cells show, in order. */
  function Shown(cells: seq<Cell>): seq<Run> {
    if cells == [] then [] else (if cells[0].Some? then [cells[0].value] else []) + Shown(cells[1..])
  }

  /** A row shows all runs in their order. */
  lemma {:induction false} AllShown(columns: seq<int>, runs: seq<Run>)
    requires Cells(columns, runs).Some?
    ensures Shown(Cells(columns, runs).value) == runs
    decreases |columns|
  {
    if runs == [] {
    } else {
      if columns[0] > runs[0].time {
        AllShown(columns[1..], runs);
      } else {
        AllShown(columns[1..], runs[1..]);
      }
      var cells := Cells(columns, runs).value;
      var rest := if columns[0] > runs[0].time then Cells(columns[1..], runs) else Cells(columns[1..], runs[1..]);
      assert cells[1..] == rest.value;
    }
  }

  lemma {:induction false} TimesMember(runs: seq<Run>, t: int)
    requires t in multiset(Times(runs))
    ensures exists i :: 0 <= i < |runs| && runs[i].time == t
  {
    if runs[0].time != t {
      assert Times(runs) == [runs[0].time] + Times(runs[1..]);
      TimesMember(runs[1..], t);
      var i :| 0 <= i < |runs[1..]| && runs[1..][i].time == t;
      assert runs[i + 1].time == t;
    }
  }

  predicate RunsDescending(runs: seq<Run>) {
    forall i, j :: 0 <= i < j < |runs| ==> runs[i].time >= runs[j].time
  }

  lemma SplitTimes(columns: seq<int>, runs: seq<Run>)
    requires columns != [] && runs != []
    ensures multiset(columns) == multiset{columns[0]} + multiset(columns[1..])
    ensures multiset(Times(runs)) == multiset{runs[0].time} + multiset(Times(runs[1..]))
  {
    assert columns == [columns[0]] + columns[1..];
  }

  lemma AlignedCons(columns: seq<int>, runs: seq<Run>)
    requires columns != [] && runs != [] && columns[0] >= runs[0].time
    requires Aligned(columns[1..], Cells(columns[1..], if columns[0] > runs[0].time then runs else runs[1..]))
    ensures Aligned(columns, Cells(columns, runs))
  {
    var rest := Cells(columns[1..], if columns[0] > runs[0].time then runs else runs[1..]).value;
    var cells := Cells(columns, runs).value;
    forall i | 0 <= i < |cells| && cells[i].Some? ensures cells[i].value.time == columns[i] {
      if i > 0 {
        assert cells[i] == rest[i - 1] && columns[i] == columns[1..][i - 1];
      }
    }
  }

  /** A column that comes before all runs is not needed. */
  lemma SkipCovered(columns: seq<int>, runs: seq<Run>)
    requires columns != [] && runs != [] && columns[0] > runs[0].time && RunsDescending(runs)
    requires multiset(Times(runs)) <= multiset(columns)
    ensures multiset(Times(runs)) <= multiset(columns[1..])
  {
    SplitTimes(columns, runs);
    if columns[0] in multiset(Times(runs)) {
      TimesMember(runs, columns[0]);
    }
  }

  lemma Cancel(a: multiset<int>, x: multiset<int>, y: multiset<int>)
    requires a + x <= a + y
    ensures x <= y
  {
    forall e ensures x[e] <= y[e] {
      assert (a + x)[e] <= (a + y)[e];
    }
  }

  lemma FirstColumn(columns: seq<int>, runs: seq<Run>)
    requires Descending(columns) && runs != [] && multiset(Times(runs)) <= multiset(columns)
    ensures columns != [] && columns[0] >= runs[0].time
  {
    var t := runs[0].time;
    assert Times(runs)[0] == t && t in multiset(Times(runs));
    assert t in multiset(columns) && t in columns;
  }

  /** If each run has a column of its own, the walk puts every run under one with its time. */
  lemma {:induction false} CoveredAligned(columns: seq<int>, runs: seq<Run>)
    requires Descending(columns) && RunsDescending(runs) && multiset(Times(runs)) <= multiset(columns)
    ensures Aligned(columns, Cells(columns, runs))
    decreases |columns|
  {
    if runs == [] {
    } else {
      FirstColumn(columns, runs);
      if columns[0] > runs[0].time {
        SkipCovered(columns, runs);
        CoveredAligned(columns[1..], runs);
      } else {
        SplitTimes(columns, runs);
        Cancel(multiset{columns[0]}, multiset(Times(runs[1..])), multiset(columns[1..]));
        CoveredAligned(columns[1..], runs[1..]);
      }
      AlignedCons(columns, runs);
    }
  }

  /** Runs that all stand under their times have columns of their own. */
  lemma {:induction false} AlignedCovered(columns: seq<int>, runs: seq<Run>)
    requires Aligned(columns, Cells(columns, runs))
    ensures multiset(Times(runs)) <= multiset(columns)
    decreases |columns|
  {
    if runs == [] {
    } else {
      SplitTimes(columns, runs);
      var skip := columns[0] > runs[0].time;
      var rest := Cells(columns[1..], if skip then runs else runs[1..]);
      var cells := Cells(columns, runs).value;
      assert cells[1..] == rest.value && !skip ==> cells[0].Some?;
      assert forall i :: 0 <= i < |rest.value| ==> rest.value[i] == cells[i + 1];
      AlignedCovered(columns[1..], if skip then runs else runs[1..]);
    }
  }

  /**
   With both sorted, the walk stays in the columns and every run stands under a
   column with its own time if and only if there are at least as many columns of
   each time as runs.
   */
  lemma AlignedIff(columns: seq<int>, runs: seq<Run>)
    requires Descending(columns) && RunsDescending(runs)
    ensures Aligned(columns, Cells(columns, runs)) <==> multiset(Times(runs)) <= multiset(columns)
  {
    if Aligned(columns, Cells(columns, runs)) {
      AlignedCovered(columns, runs);
    }
    if multiset(Times(runs)) <= multiset(columns) {
      CoveredAligned(columns, runs);
    }
  }

  // ----- runs under their own invocations -----

  /** Every run stands under its own invocation; `own` has the invocations of the columns. */
  predicate Own(columns: seq<int>, own: seq<nat>, cells: Option<seq<Cell>>)
    requires |own| == |columns|
  {
    Aligned(columns, cells) &&
    forall i :: 0 <= i < |cells.value| && cells.value[i].Some? ==> cells.value[i].value.of == own[i]
  }

  /** The invocations of the columns with a time, in order. */
  function ColumnsAt(columns: seq<int>, own: seq<nat>, t: int): seq<nat>
    requires |own| == |columns|
  {
    if columns == [] then []
    else if columns[0] == t then [own[0]] + ColumnsAt(columns[1..], own[1..], t)
    else ColumnsAt(columns[1..], own[1..], t)
  }

  /** The invocations of the runs with a time, in order. */
  function RunsAt(runs: seq<Run>, t: int): seq<nat> {
    if runs == [] then []
    else if runs[0].time == t then [runs[0].of] + RunsAt(runs[1..], t)
    else RunsAt(runs[1..], t)
  }

  /** At each time, the runs are those of the first invocations that have a column for it. */
  ghost predicate FirstOnes(columns: seq<int>, own: seq<nat>, runs: seq<Run>)
    requires |own| == |columns|
  {
    forall t :: RunsAt(runs, t) <= ColumnsAt(columns, own, t)
  }

  lemma {:induction false} NoRunsAt(runs: seq<Run>, t: int)
    requires forall i :: 0 <= i < |runs| ==> runs[i].time < t
    ensures RunsAt(runs, t) == []
  {
    if runs == [] {
    } else {
      NoRunsAt(runs[1..], t);
    }
  }

  lemma {:induction false} NoColumnsAt(columns: seq<int>, own: seq<nat>, t: int)
    requires |own| == |columns| && forall i :: 0 <= i < |columns| ==> columns[i] < t
    ensures ColumnsAt(columns, own, t) == []
  {
    if columns == [] {
    } else {
      NoColumnsAt(columns[1..], own[1..], t);
    }
  }

  lemma SkipFirstOnes(columns: seq<int>, own: seq<nat>, runs: seq<Run>)
    requires |own| == |columns| > 0 && runs != [] && RunsDescending(runs) && columns[0] > runs[0].time
    ensures FirstOnes(columns, own, runs) <==> FirstOnes(columns[1..], own[1..], runs)
  {
    NoRunsAt(runs, columns[0]);
    forall t ensures RunsAt(runs, t) <= ColumnsAt(columns, own, t) <==> RunsAt(runs, t) <= ColumnsAt(columns[1..], own[1..], t) {
      if t == columns[0] {
      } else {
        assert ColumnsAt(columns, own, t) == ColumnsAt(columns[1..], own[1..], t);
      }
    }
  }

  lemma PrefixCons(x: nat, a: seq<nat>, y: nat, b: seq<nat>)
    ensures [x] + a <= [y] + b <==> x == y && a <= b
  {
    if [x] + a <= [y] + b {
      assert ([x] + a)[0] == ([y] + b)[0];
      assert a == ([x] + a)[1..] && b == ([y] + b)[1..];
    }
  }

  lemma TakeFirstOnes(columns: seq<int>, own: seq<nat>, runs: seq<Run>)
    requires |own| == |columns| > 0 && runs != [] && columns[0] == runs[0].time
    ensures FirstOnes(columns, own, runs) <==> own[0] == runs[0].of && FirstOnes(columns[1..], own[1..], runs[1..])
  {
    var t0 := columns[0];
    PrefixCons(runs[0].of, RunsAt(runs[1..], t0), own[0], ColumnsAt(columns[1..], own[1..], t0));
    forall t | t != t0 ensures RunsAt(runs, t) == RunsAt(runs[1..], t) {}
    forall t | t != t0 ensures ColumnsAt(columns, own, t) == ColumnsAt(columns[1..], own[1..], t) {}
    if FirstOnes(columns, own, runs) {
      assert RunsAt(runs, t0) <= ColumnsAt(columns, own, t0);
      forall t ensures RunsAt(runs[1..], t) <= ColumnsAt(columns[1..], own[1..], t) {
        assert RunsAt(runs, t) <= ColumnsAt(columns, own, t);
      }
    }
    if own[0] == runs[0].of && FirstOnes(columns[1..], own[1..], runs[1..]) {
      forall t ensures RunsAt(runs, t) <= ColumnsAt(columns, own, t) {
        assert RunsAt(runs[1..], t) <= ColumnsAt(columns[1..], own[1..], t);
      }
    }
  }

  lemma OwnCons(columns: seq<int>, own: seq<nat>, runs: seq<Run>)
    requires |own| == |columns| > 0 && runs != [] && columns[0] >= runs[0].time
    ensures var skip := columns[0] > runs[0].time;
            var rest := Cells(columns[1..], if skip then runs else runs[1..]);
            Own(columns, own, Cells(columns, runs)) <==> Own(columns[1..], own[1..], rest) && (skip || own[0] == runs[0].of)
  {
    var skip := columns[0] > runs[0].time;
    var rest := Cells(columns[1..], if skip then runs else runs[1..]);
    if rest.Some? {
      var cells := Cells(columns, runs).value;
      assert forall i :: 0 <= i < |rest.value| ==> rest.value[i] == cells[i + 1];
      assert forall i :: 0 <= i < |columns[1..]| ==> columns[1..][i] == columns[i + 1] && own[1..][i] == own[i + 1];
      if Own(columns[1..], own[1..], rest) && (skip || own[0] == runs[0].of) {
        forall i | 0 <= i < |cells| && cells[i].Some?
          ensures cells[i].value.time == columns[i] && cells[i].value.of == own[i]
        {
          if i > 0 {
            assert rest.value[i - 1] == cells[i];
          }
        }
      }
    }
  }

  /**
   The walk compares times only. With both sorted, every run stands under its own
   invocation if and only if at each time the runs belong to the first of the
   invocations with that time, in their order.
   */
  lemma {:induction false} OwnIff(columns: seq<int>, own: seq<nat>, runs: seq<Run>)
    requires |own| == |columns| && Descending(columns) && RunsDescending(runs)
    ensures Own(columns, own, Cells(columns, runs)) <==> FirstOnes(columns, own, runs)
    decreases |columns|
  {
    if runs == [] {
    } else if columns == [] || columns[0] < runs[0].time {
      NoColumnsAt(columns, own, runs[0].time);
      assert !(RunsAt(runs, runs[0].time) <= ColumnsAt(columns, own, runs[0].time));
      if columns != [] && Cells(columns, runs).Some? {
        assert Cells(columns, runs).value[0] == Some(runs[0]);
      }
    } else {
      OwnCons(columns, own, runs);
      if columns[0] > runs[0].time {
        SkipFirstOnes(columns, own, runs);
        OwnIff(columns[1..], own[1..], runs);
      } else {
        TakeFirstOnes(columns, own, runs);
        OwnIff(columns[1..], own[1..], runs[1..]);
      }
    }
  }

  // ----- where runs come from -----

  /** An invocation and the steps of its step file that are suites. */
  datatype Invocation = Invocation(id: nat, time: int, steps: seq<(string, string)>)

  /** The runs that an invocation adds to a suite: one for each step with its name. */
  function RunsIn(time: int, id: nat, steps: seq<(string, string)>, name: string): seq<Run> {
    if steps == [] then []
    else (if steps[0].0 == name then [Run(time, id, steps[0].1)] else []) + RunsIn(time, id, steps[1..], name)
  }

  /** The runs of a suite, in the order in which they are parsed. */
  function RunsOf(invocations: seq<Invocation>, name: string): seq<Run> {
    if invocations == [] then []
    else RunsIn(invocations[0].time, invocations[0].id, invocations[0].steps, name) + RunsOf(invocations[1..], name)
  }

  function Columns(invocations: seq<Invocation>): seq<int> {
    if invocations == [] then [] else [invocations[0].time] + Columns(invocations[1..])
  }

  /** A suite has a run for every step with its name, in the order of invocations and steps. */
  lemma {:induction false} RunsOfTwo(a: seq<Invocation>, b: seq<Invocation>, name: string)
    ensures RunsOf(a + b, name) == RunsOf(a, name) + RunsOf(b, name)
    ensures Columns(a + b) == Columns(a) + Columns(b)
  {
    if a == [] {
      assert a + b == b;
    } else {
      var first := RunsIn(a[0].time, a[0].id, a[0].steps, name);
      assert (a + b)[1..] == a[1..] + b;
      RunsOfTwo(a[1..], b, name);
      assert (first + RunsOf(a[1..], name)) + RunsOf(b, name) == first + (RunsOf(a[1..], name) + RunsOf(b, name));
    }
  }

  lemma {:induction false} RunsInTwo(time: int, id: nat, a: seq<(string, string)>, b: seq<(string, string)>, name: string)
    ensures RunsIn(time, id, a + b, name) == RunsIn(time, id, a, name) + RunsIn(time, id, b, name)
  {
    if a == [] {
      assert a + b == b;
    } else {
      var first: seq<Run> := if a[0].0 == name then [Run(time, id, a[0].1)] else [];
      assert (a + b)[1..] == a[1..] + b;
      RunsInTwo(time, id, a[1..], b, name);
      assert (first + RunsIn(time, id, a[1..], name)) + RunsIn(time, id, b, name)
          == first + (RunsIn(time, id, a[1..], name) + RunsIn(time, id, b, name));
    }
  }

  lemma AloneIs(v: Invocation, name: string)
    ensures Columns([v]) == [v.time] && RunsOf([v], name) == RunsIn(v.time, v.id, v.steps, name)
  {
    assert [v][1..] == [];
  }

  /** An invocation with more steps has the runs of both parts, and a step with another name has none. */
  lemma RunsOfOne(v: Invocation, more: seq<(string, string)>, step: (string, string), name: string)
    ensures Columns([v]) == [v.time]
    ensures RunsOf([v.(steps := v.steps + more)], name) == RunsOf([v], name) + RunsOf([v.(steps := more)], name)
    ensures RunsOf([v.(steps := [step])], name) == if step.0 == name then [Run(v.time, v.id, step.1)] else []
  {
    RunsInTwo(v.time, v.id, v.steps, more, name);
    AloneIs(v, name);
    AloneIs(v.(steps := v.steps + more), name);
    AloneIs(v.(steps := more), name);
    AloneIs(v.(steps := [step]), name);
    var steps := [step];
    assert steps[1..] == [] && RunsIn(v.time, v.id, steps[1..], name) == [];
  }

  predicate NamesOnce(steps: seq<(string, string)>) {
    forall i, j :: 0 <= i < j < |steps| ==> steps[i].0 != steps[j].0
  }

  lemma {:induction false} NoRuns(time: int, id: nat, steps: seq<(string, string)>, name: string)
    requires forall i :: 0 <= i < |steps| ==> steps[i].0 != name
    ensures RunsIn(time, id, steps, name) == []
  {
    if steps == [] {
    } else {
      NoRuns(time, id, steps[1..], name);
    }
  }

  lemma {:induction false} AtMostOneRun(time: int, id: nat, steps: seq<(string, string)>, name: string)
    requires NamesOnce(steps)
    ensures Times(RunsIn(time, id, steps, name)) == [] || Times(RunsIn(time, id, steps, name)) == [time]
  {
    if steps == [] {
    } else {
      if steps[0].0 == name {
        NoRuns(time, id, steps[1..], name);
        assert [Run(time, id, steps[0].1)] + [] == [Run(time, id, steps[0].1)];
        assert [Run(time, id, steps[0].1)][1..] == [];
      } else {
        AtMostOneRun(time, id, steps[1..], name);
        assert [] + RunsIn(time, id, steps[1..], name) == RunsIn(time, id, steps[1..], name);
      }
    }
  }

  lemma {:induction false} TimesConcat(a: seq<Run>, b: seq<Run>)
    ensures Times(a + b) == Times(a) + Times(b)
  {
    if a == [] {
      assert a + b == b && [] + Times(b) == Times(b);
    } else {
      assert (a + b)[1..] == a[1..] + b;
      TimesConcat(a[1..], b);
    }
  }

  lemma {:induction false} RunsCovered(invocations: seq<Invocation>, name: string)
    requires forall i :: 0 <= i < |invocations| ==> NamesOnce(invocations[i].steps)
    ensures multiset(Times(RunsOf(invocations, name))) <= multiset(Columns(invocations))
  {
    if invocations == [] {
    } else {
      var v := invocations[0];
      AtMostOneRun(v.time, v.id, v.steps, name);
      RunsCovered(invocations[1..], name);
      TimesConcat(RunsIn(v.time, v.id, v.steps, name), RunsOf(invocations[1..], name));
      assert multiset(Columns(invocations)) == multiset{v.time} + multiset(Columns(invocations[1..]));
    }
  }

  lemma TimesCons(r: Run, runs: seq<Run>)
    ensures Times([r] + runs) == [r.time] + Times(runs)
  {
    assert ([r] + runs)[1..] == runs;
  }

  lemma TimesWithout(runs: seq<Run>, i: nat)
    requires i < |runs|
    ensures multiset(Times(runs)) == multiset{runs[i].time} + multiset(Times(runs[..i] + runs[i + 1..]))
  {
    hide Times;
    var before, after := runs[..i], runs[i + 1..];
    assert runs == before + ([runs[i]] + after);
    TimesConcat(before, after);
    TimesConcat(before, [runs[i]] + after);
    TimesCons(runs[i], after);
    Moved(Times(before), runs[i].time, Times(after));
  }

  lemma Moved(a: seq<int>, t: int, b: seq<int>)
    ensures multiset(a + ([t] + b)) == multiset{t} + multiset(a + b)
  {}

  lemma RestSame(a: seq<Run>, b: seq<Run>, i: nat)
    requires a != [] && i < |b| && b[i] == a[0] && multiset(a) == multiset(b)
    ensures multiset(a[1..]) == multiset(b[..i] + b[i + 1..])
  {
    assert a == [a[0]] + a[1..];
    assert b == b[..i] + ([b[i]] + b[i + 1..]);
    assert multiset(a[1..]) == multiset(a) - multiset{a[0]};
  }

  lemma Occurs(a: seq<Run>, b: seq<Run>) returns (i: nat)
    requires a != [] && multiset(a) == multiset(b)
    ensures i < |b| && b[i] == a[0]
  {
    assert a[0] in multiset(b);
    i :| 0 <= i < |b| && b[i] == a[0];
  }

  lemma {:induction false} TimesOfPermutation(a: seq<Run>, b: seq<Run>)
    requires multiset(a) == multiset(b)
    ensures multiset(Times(a)) == multiset(Times(b))
    decreases |a|
  {
    if a == [] {
      assert |b| == |multiset(b)|;
    } else {
      var i := Occurs(a, b);
      RestSame(a, b, i);
      TimesWithout(b, i);
      TimesOfPermutation(a[1..], b[..i] + b[i + 1..]);
    }
  }

  /**
   If no invocation has a suite twice, every run of a suite is shown under an
   invocation of its time, whatever order sorting gives to equal times.
   */
  lemma TableAligned(invocations: seq<Invocation>, name: string, columns: seq<int>, runs: seq<Run>)
    requires forall i :: 0 <= i < |invocations| ==> NamesOnce(invocations[i].steps)
    requires Descending(columns) && multiset(columns) == multiset(Columns(invocations))
    requires RunsDescending(runs) && multiset(runs) == multiset(RunsOf(invocations, name))
    ensures Aligned(columns, Cells(columns, runs)) && Shown(Cells(columns, runs).value) == runs
  {
    RunsCovered(invocations, name);
    TimesOfPermutation(runs, RunsOf(invocations, name));
    CoveredAligned(columns, runs);
    AllShown(columns, runs);
  }

  lemma {:induction false} RunsInOf(time: int, id: nat, steps: seq<(string, string)>, name: string)
    ensures forall r :: r in RunsIn(time, id, steps, name) ==> r.time == time && r.of == id
  {
    if steps == [] {
    } else {
      RunsInOf(time, id, steps[1..], name);
    }
  }

  /** There is an invocation with this time and number. */
  predicate Invoked(invocations: seq<Invocation>, time: int, id: nat) {
    exists i :: 0 <= i < |invocations| && invocations[i].time == time && invocations[i].id == id
  }

  lemma {:induction false} RunsOfInvoked(invocations: seq<Invocation>, name: string)
    ensures forall r :: r in RunsOf(invocations, name) ==> Invoked(invocations, r.time, r.of)
  {
    if invocations == [] {
    } else {
      var v := invocations[0];
      RunsInOf(v.time, v.id, v.steps, name);
      RunsOfInvoked(invocations[1..], name);
      forall r | r in RunsOf(invocations, name) ensures Invoked(invocations, r.time, r.of) {
        if r in RunsIn(v.time, v.id, v.steps, name) {
        } else {
          var i :| 0 <= i < |invocations[1..]| && invocations[1..][i].time == r.time && invocations[1..][i].id == r.of;
          assert invocations[i + 1] == invocations[1..][i];
        }
      }
    }
  }

  /** If moreover no two invocations have the same time, every run stands under its own. */
  lemma TableOwn(invocations: seq<Invocation>, name: string, columns: seq<int>, own: seq<nat>, runs: seq<Run>)
    requires forall i :: 0 <= i < |invocations| ==> NamesOnce(invocations[i].steps)
    requires forall i, j :: 0 <= i < j < |invocations| ==> invocations[i].time != invocations[j].time
    requires Descending(columns) && multiset(columns) == multiset(Columns(invocations)) && |own| == |columns|
    requires forall i :: 0 <= i < |columns| ==> Invoked(invocations, columns[i], own[i])
    requires RunsDescending(runs) && multiset(runs) == multiset(RunsOf(invocations, name))
    ensures Own(columns, own, Cells(columns, runs)) && Shown(Cells(columns, runs).value) == runs
  {
    TableAligned(invocations, name, columns, runs);
    RunsOfInvoked(invocations, name);
    var cells := Cells(columns, runs).value;
    forall i | 0 <= i < |cells| && cells[i].Some? ensures cells[i].value.of == own[i] {
      var r := cells[i].value;
      ShownHas(cells, i);
      assert r in multiset(runs);
      assert Invoked(invocations, r.time, r.of) && Invoked(invocations, columns[i], own[i]);
    }
  }

  lemma {:induction false} ShownHas(cells: seq<Cell>, i: nat)
    requires i < |cells| && cells[i].Some?
    ensures cells[i].value in Shown(cells)
  {
    if i == 0 {
    } else {
      ShownHas(cells[1..], i - 1);
    }
  }

  /** A suite that an invocation has twice is shown under another invocation, or behind the last column. */
  lemma TwiceMisaligned()
    ensures Cells([1], [Run(1, 0, ""), Run(1, 0, "")]) == None
    ensures var r := Cells([2, 1], [Run(2, 0, ""), Run(2, 0, "")]); r.Some? && !Aligned([2, 1], r)
  {
    assert [2, 1][1..] == [1] && [1][1..] == [];
    var runs := [Run(2, 0, ""), Run(2, 0, "")];
    assert runs[1..] == [Run(2, 0, "")] && [Run(2, 0, "")][1..] == [];
    var r := Cells([2, 1], runs).value;
    assert r == [Some(Run(2, 0, "")), Some(Run(2, 0, ""))];
    assert r[1].Some? && r[1].value.time != [2, 1][1];
    assert [Run(1, 0, ""), Run(1, 0, "")][1..] == [Run(1, 0, "")];
  }
}
