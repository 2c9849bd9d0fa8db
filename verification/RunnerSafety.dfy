/** What every run of the step loop keeps, with crashes and resumptions anywhere. */
module RunnerSafety {
  import opened Wrappers
  import opened Text
  import opened Runner

  /**
   The row belongs to the list. A skipped row has no failure; its name is that of its
   step, which is then the only one of that name, or that of no step.
   */
  predicate RowOk(names: seq<string>, id: nat, r: Row) {
    && 1 <= id <= |names| && r.id == id
    && (r.name == names[id - 1] || (r.skip && r.name !in names))
    && (r.skip ==> r.exit == 0 && (r.name == names[id - 1] ==> Unique(names, id)))
  }

  ghost predicate FileOk(names: seq<string>, file: File) {
    Ascending(file) && forall id: nat :: Get(file, id).Some? ==> RowOk(names, id, Get(file, id).value)
  }

  /** The step was skipped under its name or has succeeded. */
  predicate Passed(names: seq<string>, file: File, id: nat) {
    && 1 <= id <= |names| && Get(file, id).Some?
    && var r := Get(file, id).value; r.name == names[id - 1] && (r.skip || r.exit == 0)
  }

  predicate Below(names: seq<string>, file: File, k: nat) {
    forall id: nat :: 1 <= id < k ==> Passed(names, file, id)
  }

  /** Whatever is recorded above k is skipped. */
  ghost predicate Above(file: File, k: nat) {
    forall id: nat :: id > k && Get(file, id).Some? ==> Get(file, id).value.skip
  }

  ghost predicate Ready(names: seq<string>, file: File, k: nat) {
    FileOk(names, file) && Below(names, file, k) && Above(file, k)
  }

  /** A step that was started and not skipped. */
  predicate Ran(file: File, id: nat) {
    Get(file, id).Some? && !Get(file, id).value.skip
  }

  /** All steps below one that ran, or runs, are passed. */
  ghost predicate Safe(names: seq<string>, file: File) {
    forall id: nat :: Ran(file, id) ==> Below(names, file, id)
  }

  /** The end may run again, any other step only if it did not succeed. */
  predicate Runnable(names: seq<string>, file: File, k: nat) {
    Get(file, k).None? || Get(file, k).value.skip || Get(file, k).value.exit != 0 || k >= |names|
  }

  ghost predicate Invariant(names: seq<string>, s: State) {
    FileOk(names, s.file) &&
    match s.phase
    case Idle => Safe(names, s.file)
    case Skipping => Above(s.file, 1) && Runnable(names, s.file, 1)
    case Select(k, spent) => SelectOk(names, s.file, k, spent)
    case Running(k, before, spent) => before == spent && RunningOk(names, s.file, k)
    case Done(k, exit, spent) => DoneOk(names, s.file, k, exit, spent)
    case Ending(k) => k == |names| && Ready(names, s.file, k)
  }

  ghost predicate SelectOk(names: seq<string>, file: File, k: nat, spent: int) {
    && 1 <= k <= |names| + 1 && Ready(names, file, k) && Runnable(names, file, k)
    && (k <= |names| ==> DurationRetry(file, k, names[k - 1]) == spent)
  }

  ghost predicate RunningOk(names: seq<string>, file: File, k: nat) {
    1 <= k < |names| && Ready(names, file, k) && Get(file, k) == Some(Row(k, names[k - 1], -1, -1, false))
  }

  ghost predicate DoneOk(names: seq<string>, file: File, k: nat, exit: nat, spent: int) {
    1 <= k < |names| && Ready(names, file, k) && Get(file, k) == Some(Row(k, names[k - 1], exit, spent, false))
  }

  // ----- reading the file -----

  lemma ReadyIsSafe(names: seq<string>, file: File, k: nat)
    requires Ready(names, file, k)
    ensures Safe(names, file)
  {
    forall id: nat | Ran(file, id) ensures Below(names, file, id) {
      assert id <= k;
    }
  }

  /** Skipping goes by name, yet it hits exactly the step whose row is skipped under its name. */
  lemma SkipIs(names: seq<string>, file: File, k: nat)
    requires FileOk(names, file) && 1 <= k <= |names|
    ensures StepSkip(file, names[k - 1]) <==>
            Get(file, k).Some? && Get(file, k).value.skip && Get(file, k).value.name == names[k - 1]
  {
    FirstNamedIs(file, names[k - 1], k);
    var first := FirstNamed(file, names[k - 1]);
    if first.Some? {
      assert RowOk(names, first.value.id, first.value);
    }
    if Get(file, k).Some? {
      assert RowOk(names, k, Get(file, k).value);
    }
  }

  lemma {:induction false} StepNextIs(file: File) returns (r: Row)
    requires Ascending(file) && StepNext(file).Some?
    ensures Get(file, r.id) == Some(r) && !r.skip && Above(file, r.id)
    ensures StepNext(file).value == if r.exit != 0 || r.name == END then r.id else r.id + 1
  {
    var n := |file| - 1;
    r := file[n];
    if r.skip {
      r := StepNextIs(file[..n]);
      GetLast(file, r.id);
      var at := GetFound(file[..n], r.id);
      assert file[at].id < file[n].id;
    } else {
      GetAt(file, n);
    }
    forall id: nat | id > r.id && Get(file, id).Some? ensures Get(file, id).value.skip {
      GetLast(file, id);
      var at := GetFound(file, id);
    }
  }

  lemma {:induction false} StepNextNone(file: File, id: nat)
    requires Ascending(file) && StepNext(file).None?
    ensures !Ran(file, id)
  {
    if file == [] {
    } else {
      StepNextNone(file[..|file| - 1], id);
      GetLast(file, id);
    }
  }

  lemma BelowPositions(names: seq<string>, file: File, k: nat)
    requires FileOk(names, file) && Below(names, file, k) && k > 0
    ensures |file| >= k - 1 && forall i :: 0 <= i < k - 1 ==> file[i].id == i + 1
  {
    forall id: nat | 1 <= id <= k - 1 ensures Get(file, id).Some? {
      assert Passed(names, file, id);
    }
    Positions(file, k - 1);
  }

  /** Looking a step up by its position finds its own row. */
  lemma PositionIs(names: seq<string>, file: File, k: nat)
    requires Ready(names, file, k) && 1 <= k <= |names|
    ensures Get(file, k).Some? ==> k <= |file| && file[k - 1] == Get(file, k).value
    ensures Get(file, k).None? && k <= |file| ==> file[k - 1].skip && file[k - 1].exit == 0
  {
    BelowPositions(names, file, k);
    if k <= |file| {
      GetAt(file, k - 1);
      assert RowOk(names, file[k - 1].id, file[k - 1]);
      assert k > 1 ==> file[k - 2].id < file[k - 1].id;
    }
    if Get(file, k).Some? {
      var at := GetFound(file, k);
      assert at >= k - 1;
      assert forall j :: at < j < |file| ==> k < file[j].id;
    }
  }

  lemma RetryIs(names: seq<string>, file: File, k: nat)
    requires Ready(names, file, k) && 1 <= k <= |names|
    ensures DurationRetry(file, k, names[k - 1]) ==
            if Get(file, k).Some? && Get(file, k).value.exit == RETRY then Get(file, k).value.duration else 0
  {
    PositionIs(names, file, k);
    if Get(file, k).Some? {
      assert RowOk(names, k, Get(file, k).value);
    }
  }

  // ----- writing the file -----

  lemma PutOk(names: seq<string>, file: File, r: Row)
    requires FileOk(names, file) && RowOk(names, r.id, r)
    ensures FileOk(names, Put(file, r))
  {
    PutAscending(file, r);
    forall id: nat | Get(Put(file, r), id).Some? ensures RowOk(names, id, Get(Put(file, r), id).value) {
      GetPut(file, r, id);
    }
  }

  /** A row that is not skipped can be written at the step that is ready. */
  lemma PutReady(names: seq<string>, file: File, k: nat, exit: int, duration: int)
    requires Ready(names, file, k) && 1 <= k <= |names|
    ensures var file2 := Put(file, Row(k, names[k - 1], exit, duration, false));
            Ready(names, file2, k) && Get(file2, k) == Some(Row(k, names[k - 1], exit, duration, false))
  {
    var r := Row(k, names[k - 1], exit, duration, false);
    PutOk(names, file, r);
    GetPut(file, r, k);
    forall id: nat | 1 <= id < k ensures Passed(names, Put(file, r), id) {
      assert Passed(names, file, id);
      GetPut(file, r, id);
    }
    forall id: nat | id > k && Get(Put(file, r), id).Some? ensures Get(Put(file, r), id).value.skip {
      GetPut(file, r, id);
    }
  }

  lemma NextReady(names: seq<string>, file: File, k: nat)
    requires Ready(names, file, k) && 1 <= k <= |names| && Passed(names, file, k)
    ensures Ready(names, file, k + 1) && Runnable(names, file, k + 1)
    ensures k < |names| ==> DurationRetry(file, k + 1, names[k]) == 0
  {
    assert Below(names, file, k + 1);
    if k < |names| {
      RetryIs(names, file, k + 1);
    }
  }

  /** The step to go on at is ready. */
  lemma ResumeReady(names: seq<string>, file: File)
    requires StepList(names) && FileOk(names, file) && Safe(names, file) && StepNext(file).Some?
    ensures var k := StepNext(file).value;
            1 <= k <= |names| && Ready(names, file, k) && Runnable(names, file, k)
  {
    var r := StepNextIs(file);
    assert RowOk(names, r.id, r) && Ran(file, r.id);
    if r.exit == 0 && r.name != END {
      NextReady(names, file, r.id);
    }
  }

  // ----- every step keeps the invariant -----

  lemma ResumeKeeps(names: seq<string>, s: State, a: Action)
    requires StepList(names) && Invariant(names, s) && Apply(names, s, a).Some?
    requires a.Start? || a.Resume? || a.SkipDone?
    ensures Invariant(names, Apply(names, s, a).value)
  {
    match a
    case Start(_) =>
    case SkipDone =>
    case Resume(_) => ResumeReady(names, s.file);
  }

  lemma SkipRowKeeps(names: seq<string>, s: State, id: nat, name: string)
    requires StepList(names) && Invariant(names, s) && Apply(names, s, SkipRow(id, name)).Some?
    ensures Invariant(names, Apply(names, s, SkipRow(id, name)).value)
  {
    var r := Row(id, name, 0, 0, true);
    OnlyLineName(names, name, id);
    PutOk(names, s.file, r);
    GetPut(s.file, r, 1);
    forall i: nat | i > 1 && Get(Put(s.file, r), i).Some? ensures Get(Put(s.file, r), i).value.skip {
      GetPut(s.file, r, i);
    }
  }

  lemma SkipKeeps(names: seq<string>, s: State)
    requires StepList(names) && Invariant(names, s) && Apply(names, s, Skip).Some?
    ensures Invariant(names, Apply(names, s, Skip).value)
  {
    SkipIs(names, s.file, s.phase.k);
    NextReady(names, s.file, s.phase.k);
  }

  lemma LaunchKeeps(names: seq<string>, file: File, k: nat, spent: int)
    requires StepList(names) && SelectOk(names, file, k, spent) && k <= |names| && names[k - 1] != END
    ensures RunningOk(names, Put(file, Row(k, names[k - 1], -1, -1, false)), k)
  {
    PutReady(names, file, k, -1, -1);
  }

  lemma FinishKeeps(names: seq<string>, file: File, k: nat, exit: nat, spent: int)
    requires RunningOk(names, file, k)
    ensures DoneOk(names, Put(file, Row(k, names[k - 1], exit, spent, false)), k, exit, spent)
  {
    PutReady(names, file, k, exit, spent);
  }

  lemma RetryKeeps(names: seq<string>, file: File, k: nat, spent: int)
    requires DoneOk(names, file, k, RETRY, spent)
    ensures StepNext(file) == Some(k) && SelectOk(names, file, k, spent)
    ensures !StepSkip(file, names[k - 1])
  {
    StepNextAt(names, file, k);
    RetryIs(names, file, k);
    SkipIs(names, file, k);
  }

  lemma StepNextAt(names: seq<string>, file: File, k: nat)
    requires Ready(names, file, k) && Get(file, k).Some? && !Get(file, k).value.skip && Get(file, k).value.exit != 0
    ensures StepNext(file) == Some(k)
  {
    if StepNext(file).None? {
      StepNextNone(file, k);
    } else {
      var r := StepNextIs(file);
    }
  }

  lemma EndKeeps(names: seq<string>, s: State, a: Action)
    requires StepList(names) && Invariant(names, s) && Apply(names, s, a).Some? && (a.EndStart? || a.EndDone?)
    ensures Invariant(names, Apply(names, s, a).value)
  {
    var n := |names|;
    if a.EndStart? {
      PutReady(names, s.file, n, -1, -1);
    } else {
      var total := DurationTotal(s.file);
      PutReady(names, s.file, n, 0, total);
      ReadyIsSafe(names, Put(s.file, Row(n, END, 0, total, false)), n);
    }
  }

  lemma InvariantIsSafe(names: seq<string>, s: State)
    requires Invariant(names, s)
    ensures Safe(names, s.file)
  {
    match s.phase
    case Idle =>
    case Skipping =>
      forall id: nat | Ran(s.file, id) ensures Below(names, s.file, id) {
        assert id <= 1;
      }
    case Select(k, _) => ReadyIsSafe(names, s.file, k);
    case Running(k, _, _) => ReadyIsSafe(names, s.file, k);
    case Done(k, _, _) => ReadyIsSafe(names, s.file, k);
    case Ending(k) => ReadyIsSafe(names, s.file, k);
  }

  lemma WriteKeeps(names: seq<string>, s: State, a: Action)
    requires StepList(names) && Invariant(names, s) && Apply(names, s, a).Some?
    requires a.Launch? || a.Finish? || a.Retry?
    ensures Invariant(names, Apply(names, s, a).value)
  {
    match a
    case Launch => LaunchKeeps(names, s.file, s.phase.k, s.phase.spent);
    case Finish(exit, took) => FinishKeeps(names, s.file, s.phase.k, exit, s.phase.before + took);
    case Retry => RetryKeeps(names, s.file, s.phase.k, s.phase.spent);
  }

  lemma StopKeeps(names: seq<string>, s: State, a: Action)
    requires StepList(names) && Invariant(names, s) && Apply(names, s, a).Some?
    requires a.Reboot? || a.Killed? || a.Fail? || a.OutOfSteps? || a.Kill? || a.Crash?
    ensures Invariant(names, Apply(names, s, a).value)
  {
    InvariantIsSafe(names, s);
    assert a.Kill? || Apply(names, s, a).value == s.(phase := Idle);
  }

  lemma StepKeeps(names: seq<string>, s: State, a: Action)
    requires StepList(names) && Invariant(names, s) && Apply(names, s, a).Some?
    ensures Invariant(names, Apply(names, s, a).value)
  {
    match a
    case Start(_) => ResumeKeeps(names, s, a);
    case Resume(_) => ResumeKeeps(names, s, a);
    case SkipDone => ResumeKeeps(names, s, a);
    case SkipRow(id, name) => SkipRowKeeps(names, s, id, name);
    case Skip => SkipKeeps(names, s);
    case Launch => WriteKeeps(names, s, a);
    case Finish(_, _) => WriteKeeps(names, s, a);
    case Retry => WriteKeeps(names, s, a);
    case EndStart => EndKeeps(names, s, a);
    case EndDone => EndKeeps(names, s, a);
    case Continue => NextReady(names, s.file, s.phase.k);
    case Reboot => StopKeeps(names, s, a);
    case Killed => StopKeeps(names, s, a);
    case Fail => StopKeeps(names, s, a);
    case OutOfSteps => StopKeeps(names, s, a);
    case Kill => StopKeeps(names, s, a);
    case Crash => StopKeeps(names, s, a);
  }

  lemma {:induction false} RunKeeps(names: seq<string>, actions: seq<Action>)
    requires StepList(names) && Reach(names, actions).Some?
    ensures Invariant(names, Reach(names, actions).value)
  {
    if actions == [] {
    } else {
      var n := |actions| - 1;
      RunKeeps(names, actions[..n]);
      StepKeeps(names, Reach(names, actions[..n]).value, actions[n]);
    }
  }

  // ----- main results -----

  /** In every file a run can leave, all steps below one that was started are skipped or succeeded. */
  lemma ResumeSafety(names: seq<string>, actions: seq<Action>, k: nat, id: nat)
    requires StepList(names) && Reach(names, actions).Some?
    requires Ran(Reach(names, actions).value.file, k) && 1 <= id < k
    ensures Passed(names, Reach(names, actions).value.file, id)
  {
    RunKeeps(names, actions);
    InvariantIsSafe(names, Reach(names, actions).value);
    assert Below(names, Reach(names, actions).value.file, k);
  }

  /** If the end was recorded, nothing is missing and nothing failed. */
  lemma EndMeansAllPassed(names: seq<string>, actions: seq<Action>, id: nat)
    requires StepList(names) && Reach(names, actions).Some? && 1 <= id <= |names|
    requires var file := Reach(names, actions).value.file; Ran(file, |names|) && Passed(names, file, |names|)
    ensures Passed(names, Reach(names, actions).value.file, id)
  {
    if id < |names| {
      ResumeSafety(names, actions, |names|, id);
    }
  }

  /** While step k runs, all rows up to k are there and stand at their positions. */
  lemma RowsAreThere(names: seq<string>, actions: seq<Action>)
    requires StepList(names) && Reach(names, actions).Some? && Reach(names, actions).value.phase.Running?
    ensures var s := Reach(names, actions).value;
            && 1 <= s.phase.k <= |names| && s.phase.k <= |s.file|
            && s.file[s.phase.k - 1] == Row(s.phase.k, names[s.phase.k - 1], -1, -1, false)
            && forall id :: 1 <= id < s.phase.k ==> s.file[id - 1].id == id && Passed(names, s.file, id)
  {
    RunKeeps(names, actions);
    var s := Reach(names, actions).value;
    PositionIs(names, s.file, s.phase.k);
    BelowPositions(names, s.file, s.phase.k);
  }

  /** No step is started that succeeded before or is skipped. */
  lemma NeverAgain(names: seq<string>, actions: seq<Action>)
    requires StepList(names) && Reach(names, actions).Some?
    requires Apply(names, Reach(names, actions).value, Launch).Some?
    ensures var s := Reach(names, actions).value; !Passed(names, s.file, s.phase.k)
  {
    RunKeeps(names, actions);
    SkipIs(names, Reach(names, actions).value.file, Reach(names, actions).value.phase.k);
  }

  /**
   A step stays passed for the rest of the run, whatever happens; only the end is
   done again, and a skip under another word undoes the skip of the step.
   */
  lemma PassedStays(names: seq<string>, s: State, a: Action, id: nat)
    requires StepList(names) && Invariant(names, s) && Apply(names, s, a).Some?
    requires 1 <= id < |names| && Passed(names, s.file, id)
    ensures Passed(names, Apply(names, s, a).value.file, id) <==> !(a.SkipRow? && a.id == id && a.name != names[id - 1])
  {
    if a.SkipRow? {
      GetPut(s.file, Row(a.id, a.name, 0, 0, true), id);
    } else if a.Launch? {
      SkipIs(names, s.file, s.phase.k);
      GetPut(s.file, Row(s.phase.k, names[s.phase.k - 1], -1, -1, false), id);
    } else if a.Finish? {
      GetPut(s.file, Row(s.phase.k, names[s.phase.k - 1], a.exit, s.phase.before + a.took, false), id);
    } else if a.EndStart? {
      GetPut(s.file, Row(s.phase.k, END, -1, -1, false), id);
    } else if a.EndDone? {
      GetPut(s.file, Row(s.phase.k, END, 0, DurationTotal(s.file), false), id);
    }
  }

  /**
   A word that is found in the line of one step marks that step as skipped. The step
   is left out if and only if the word is its name.
   */
  lemma SkipTakesEffectIff(names: seq<string>, s: State, id: nat, name: string)
    requires StepList(names) && Invariant(names, s) && Apply(names, s, SkipRow(id, name)).Some?
    ensures var file := Apply(names, s, SkipRow(id, name)).value.file;
            && Get(file, id).Some? && Get(file, id).value.skip
            && (StepSkip(file, names[id - 1]) <==> name == names[id - 1])
  {
    SkipRowKeeps(names, s, id, name);
    GetPut(s.file, Row(id, name, 0, 0, true), id);
    SkipIs(names, Apply(names, s, SkipRow(id, name)).value.file, id);
  }

  predicate IsDigit(c: char) {
    '0' <= c <= '9'
  }

  predicate NoDigits(s: string) {
    forall i :: 0 <= i < |s| ==> !IsDigit(s[i])
  }

  lemma LineDigit(names: seq<string>, i: nat, q: nat)
    requires 1 <= i <= |names| && NoDigits(names[i - 1]) && q < |Line(names, i)|
    ensures IsDigit(Line(names, i)[q]) <==> q < |DecimalNat(i)|
    ensures q < |DecimalNat(i)| ==> Line(names, i)[q] == DecimalNat(i)[q]
  {
    var number := DecimalNat(i);
    if q < |number| {
      assert number[q] in number;
    } else if q > |number| {
      assert Line(names, i)[q] == names[i - 1][q - |number| - 1];
    }
  }

  lemma NumberAt(names: seq<string>, id: nat, i: nat, p: nat)
    requires 1 <= i <= |names| && id > 0 && WordAt(Line(names, i), DecimalNat(id), p) && NoDigits(names[i - 1])
    ensures i == id
  {
    var line, w, number := Line(names, i), DecimalNat(id), DecimalNat(i);
    var last := |w| - 1;
    assert line[p..p + |w|][last] == line[p + last] && w[last] in w;
    LineDigit(names, i, p + last);
    if p > 0 {
      LineDigit(names, i, p - 1);
    }
    if p + |w| < |line| {
      LineDigit(names, i, p + |w|);
    }
    assert p == 0 && |w| == |number|;
    assert w == number;
    DigitsOfDecimal(id);
    DigitsOfDecimal(i);
  }

  /**
   So a step's number is taken for its name where names hold no digits: it is in the
   line of that step only, yet the step is not left out.
   */
  lemma SkipByNumber(names: seq<string>, s: State, id: nat)
    requires StepList(names) && Invariant(names, s) && s.phase.Skipping? && 1 <= id <= |names|
    requires forall i :: 0 <= i < |names| ==> names[i] != "" && NoDigits(names[i])
    ensures var t := Apply(names, s, SkipRow(id, DecimalNat(id)));
            t.Some? && Get(t.value.file, id).Some? && Get(t.value.file, id).value.skip && !StepSkip(t.value.file, names[id - 1])
  {
    assert WordAt(Line(names, id), DecimalNat(id), 0);
    forall i | 1 <= i <= |names| && i != id ensures !InLine(names, DecimalNat(id), i) {
      if InLine(names, DecimalNat(id), i) {
        var p :| 0 <= p <= |Line(names, i)| && WordAt(Line(names, i), DecimalNat(id), p);
        NumberAt(names, id, i, p);
      }
    }
    assert DecimalNat(id)[0] in DecimalNat(id);
    SkipTakesEffectIff(names, s, id, DecimalNat(id));
  }

  /** A step that wants another attempt is the one that is selected next. */
  lemma RetrySelects(names: seq<string>, actions: seq<Action>)
    requires StepList(names) && Reach(names, actions).Some?
    requires var s := Reach(names, actions).value; s.phase.Done? && s.phase.exit == RETRY
    ensures var s := Reach(names, actions).value;
            Reach(names, actions + [Retry]) == Some(s.(phase := Select(s.phase.k, s.phase.spent)))
  {
    RunKeeps(names, actions);
    var s := Reach(names, actions).value;
    RetryKeeps(names, s.file, s.phase.k, s.phase.spent);
    ReachOne(names, actions, Retry);
  }

  // ----- durations -----

  function Sum(ts: seq<nat>): nat {
    if ts == [] then 0 else Sum(ts[..|ts| - 1]) + ts[|ts| - 1]
  }

  /** Attempts that take these times and all ask to be tried again. */
  function Attempts(ts: seq<nat>): seq<Action> {
    if ts == [] then [] else Attempts(ts[..|ts| - 1]) + [Launch, Finish(RETRY, ts[|ts| - 1]), Retry]
  }

  lemma ReachOne(names: seq<string>, actions: seq<Action>, a: Action)
    requires Reach(names, actions).Some?
    ensures Reach(names, actions + [a]) == Apply(names, Reach(names, actions).value, a)
  {
    assert (actions + [a])[..|actions|] == actions;
  }

  /** The file after an attempt. */
  function Attempted(names: seq<string>, file: File, k: nat, took: nat): File
    requires 1 <= k <= |names|
  {
    var name := names[k - 1];
    Put(Put(file, Row(k, name, -1, -1, false)), Row(k, name, RETRY, DurationRetry(file, k, name) + took, false))
  }

  lemma ReachThree(names: seq<string>, actions: seq<Action>, a: Action, b: Action, c: Action, s1: State, s2: State, s3: State)
    requires Reach(names, actions).Some? && Apply(names, Reach(names, actions).value, a) == Some(s1)
    requires Apply(names, s1, b) == Some(s2) && Apply(names, s2, c) == Some(s3)
    ensures Reach(names, actions + [a, b, c]) == Some(s3)
  {
    hide Reach, Apply;
    ReachOne(names, actions, a);
    ReachOne(names, actions + [a], b);
    ReachOne(names, actions + [a] + [b], c);
    assert actions + [a, b, c] == actions + [a] + [b] + [c];
  }

  lemma LaunchIs(names: seq<string>, s: State, k: nat, spent: int)
    requires s.phase == Select(k, spent) && 1 <= k <= |names| && names[k - 1] != END && !StepSkip(s.file, names[k - 1])
    ensures Apply(names, s, Launch) ==
            Some(s.(file := Put(s.file, Row(k, names[k - 1], -1, -1, false)),
                    phase := Running(k, DurationRetry(s.file, k, names[k - 1]), spent)))
  {}

  lemma FinishIs(names: seq<string>, s: State, k: nat, before: int, spent: int, exit: nat, took: nat)
    requires s.phase == Running(k, before, spent) && 1 <= k <= |names|
    ensures Apply(names, s, Finish(exit, took)) ==
            Some(s.(file := Put(s.file, Row(k, names[k - 1], exit, before + took, false)), phase := Done(k, exit, spent + took)))
  {}

  lemma RetryAt(names: seq<string>, s: State, k: nat, spent: int)
    requires s.phase == Done(k, RETRY, spent) && StepNext(s.file) == Some(k)
    ensures Apply(names, s, Retry) == Some(s.(phase := Select(k, spent)))
  {}

  lemma AttemptReach(names: seq<string>, actions: seq<Action>, s: State, k: nat, spent: int, took: nat)
    requires Reach(names, actions) == Some(s) && s.phase == Select(k, spent)
    requires 1 <= k <= |names| && names[k - 1] != END && !StepSkip(s.file, names[k - 1])
    requires StepNext(Attempted(names, s.file, k, took)) == Some(k)
    ensures Reach(names, actions + [Launch, Finish(RETRY, took), Retry]) ==
            Some(s.(file := Attempted(names, s.file, k, took), phase := Select(k, spent + took)))
  {
    hide Apply, Reach, Put, StepNext, DurationRetry, StepSkip;
    var before := DurationRetry(s.file, k, names[k - 1]);
    var s1 := s.(file := Put(s.file, Row(k, names[k - 1], -1, -1, false)), phase := Running(k, before, spent));
    var s2 := s.(file := Attempted(names, s.file, k, took), phase := Done(k, RETRY, spent + took));
    LaunchIs(names, s, k, spent);
    FinishIs(names, s1, k, before, spent, RETRY, took);
    RetryAt(names, s2, k, spent + took);
    ReachThree(names, actions, Launch, Finish(RETRY, took), Retry, s1, s2, s2.(phase := Select(k, spent + took)));
  }

  lemma AttemptKeeps(names: seq<string>, file: File, k: nat, spent: int, took: nat)
    requires StepList(names) && SelectOk(names, file, k, spent) && k < |names|
    ensures DoneOk(names, Attempted(names, file, k, took), k, RETRY, spent + took)
  {
    assert DurationRetry(file, k, names[k - 1]) == spent;
    LaunchKeeps(names, file, k, spent);
    FinishKeeps(names, Put(file, Row(k, names[k - 1], -1, -1, false)), k, RETRY, spent + took);
  }

  /** The file after attempts that take these times. */
  function AllAttempted(names: seq<string>, file: File, k: nat, ts: seq<nat>): File
    requires 1 <= k <= |names|
  {
    if ts == [] then file else Attempted(names, AllAttempted(names, file, k, ts[..|ts| - 1]), k, ts[|ts| - 1])
  }

  /** The step is selected and can be started. */
  ghost predicate Selected(names: seq<string>, file: File, k: nat, spent: int) {
    SelectOk(names, file, k, spent) && k < |names| && !StepSkip(file, names[k - 1])
  }

  lemma SelectedId(names: seq<string>, file: File, k: nat, spent: int)
    requires Selected(names, file, k, spent)
    ensures 1 <= k < |names|
  {}

  lemma OneMore(names: seq<string>, actions: seq<Action>, s: State, k: nat, spent: int, took: nat)
    requires StepList(names) && Reach(names, actions) == Some(s) && s.phase == Select(k, spent)
    requires Selected(names, s.file, k, spent)
    ensures var file2 := Attempted(names, s.file, k, took);
            && Reach(names, actions + [Launch, Finish(RETRY, took), Retry]) ==
               Some(s.(file := file2, phase := Select(k, spent + took)))
            && Selected(names, file2, k, spent + took) && DoneOk(names, file2, k, RETRY, spent + took)
  {
    var file2 := Attempted(names, s.file, k, took);
    AttemptKeeps(names, s.file, k, spent, took);
    RetryKeeps(names, file2, k, spent + took);
    AttemptReach(names, actions, s, k, spent, took);
  }

  lemma {:induction false} AttemptsReach(names: seq<string>, actions: seq<Action>, s: State, k: nat, spent: int, ts: seq<nat>)
    requires StepList(names) && Reach(names, actions) == Some(s) && s.phase == Select(k, spent)
    requires Selected(names, s.file, k, spent)
    ensures var file2 := AllAttempted(names, s.file, k, ts);
            && Reach(names, actions + Attempts(ts)) == Some(s.(file := file2, phase := Select(k, spent + Sum(ts))))
            && Selected(names, file2, k, spent + Sum(ts))
            && (ts != [] ==> DoneOk(names, file2, k, RETRY, spent + Sum(ts)))
  {
    hide Reach, Selected, DoneOk, Attempted;
    SelectedId(names, s.file, k, spent);
    if ts == [] {
      assert actions + [] == actions;
    } else {
      var n := |ts| - 1;
      var before, more := spent + Sum(ts[..n]), actions + Attempts(ts[..n]);
      var s1 := s.(file := AllAttempted(names, s.file, k, ts[..n]), phase := Select(k, before));
      AttemptsReach(names, actions, s, k, spent, ts[..n]);
      OneMore(names, more, s1, k, before, ts[n]);
      assert before + ts[n] == spent + Sum(ts);
      assert actions + Attempts(ts) == more + [Launch, Finish(RETRY, ts[n]), Retry];
    }
  }

  /**
   After any number of attempts in a row that ask to be tried again, the recorded
   duration of the step is what it was before plus the sum of all of them.
   */
  lemma RetriesAddUp(names: seq<string>, actions: seq<Action>, ts: seq<nat>)
    requires StepList(names) && Reach(names, actions).Some? && ts != []
    requires Launched(names, Reach(names, actions).value).Some?
    ensures var s := Reach(names, actions).value;
            var r := Reach(names, actions + Attempts(ts));
            && r.Some? && r.value.phase == Select(s.phase.k, s.phase.spent + Sum(ts))
            && Get(r.value.file, s.phase.k).Some?
            && Get(r.value.file, s.phase.k).value.duration == s.phase.spent + Sum(ts)
  {
    hide Reach, Attempts, AllAttempted, Sum, FileOk, Below, Above, Put, StepSkip, Ready;
    RunKeeps(names, actions);
    var s := Reach(names, actions).value;
    AttemptsReach(names, actions, s, s.phase.k, s.phase.spent, ts);
  }
}
