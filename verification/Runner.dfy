/**
 util.sh, modes without parallel steps: the loop over the steps, retries,
 skipping and resuming, as a transition system. One action is one robsd-step call
 or one decision of the shell code; a crash can follow any of them. Steps are
 numbered from 1, the step file is the list of its rows in the order of their ids.
 */
module Runner {
  import opened Wrappers
  import opened Text

  datatype Row = Row(id: nat, name: string, exit: int, duration: int, skip: bool)

  type File = seq<Row>

  const END: string := ['e', 'n', 'd']
  const REBOOT: string := ['r', 'e', 'b', 'o', 'o', 't']

  /** Exit status of a step that is to be tried again. */
  const RETRY: int := 125

  // ----- the step file -----

  /** robsd-step -W: the row with this id is replaced or added in its place. */
  function Put(file: File, r: Row): File {
    if file == [] || r.id < file[0].id then [r] + file
    else if r.id == file[0].id then [r] + file[1..]
    else [file[0]] + Put(file[1..], r)
  }

  function Get(file: File, id: nat): Option<Row> {
    if file == [] then None
    else if file[0].id == id then Some(file[0])
    else Get(file[1..], id)
  }

  /** robsd-step -R -i: a positive number counts rows from the start, a negative one from the end. */
  function RowAt(file: File, i: int): Option<Row> {
    if 0 < i <= |file| then Some(file[i - 1])
    else if -|file| <= i < 0 then Some(file[|file| + i])
    else None
  }

  /** robsd-step -R -n: the first row with a name. */
  function FirstNamed(file: File, name: string): Option<Row> {
    if file == [] then None
    else if file[0].name == name then Some(file[0])
    else FirstNamed(file[1..], name)
  }

  predicate StepSkip(file: File, name: string) {
    FirstNamed(file, name).Some? && FirstNamed(file, name).value.skip
  }

  /** Where to go on: at the last row that is not skipped, or after it if it succeeded and is not the end. */
  function StepNext(file: File): Option<nat> {
    if file == [] then None
    else
      var last := file[|file| - 1];
      if last.skip then StepNext(file[..|file| - 1])
      else if last.exit != 0 || last.name == END then Some(last.id)
      else Some(last.id + 1)
  }

  /** The duration of a step that is tried again; the step is looked up by position. */
  function DurationRetry(file: File, id: nat, name: string): int {
    match RowAt(file, id)
    case None => 0
    case Some(r) => if r.name == name && r.exit == RETRY then r.duration else 0
  }

  function DurationTotal(file: File): int {
    if file == [] then 0
    else (if file[0].skip || file[0].name == END then 0 else file[0].duration) + DurationTotal(file[1..])
  }

  // ----- transitions -----

  /**
   Where the shell code is. `spent` is the time of all attempts at the step since
   the step was first selected, or since the resumption plus what the file says.
   */
  datatype Phase =
    | Idle
    | Skipping
    | Select(k: nat, spent: int)
    | Running(k: nat, before: int, spent: int)
    | Done(k: nat, exit: nat, spent: int)
    | Ending(k: nat)

  /** `locked` says whether the lock of the build is held, `reboots` whether a reboot is configured. */
  datatype State = State(file: File, phase: Phase, locked: bool, reboots: bool)

  /** A kill takes the lock away; it can come at any time. */
  datatype Action =
    | Start(reboots: bool)
    | Resume(reboots: bool)
    | SkipRow(id: nat, name: string)
    | SkipDone
    | Skip
    | Launch
    | Finish(exit: nat, took: nat)
    | Continue
    | Reboot
    | Killed
    | Retry
    | Fail
    | EndStart
    | EndDone
    | OutOfSteps
    | Kill
    | Crash

  /** The list of steps ends with the end, and no other step has that name. */
  predicate StepList(names: seq<string>) {
    names != [] && names[|names| - 1] == END && forall i :: 0 <= i < |names| - 1 ==> names[i] != END
  }

  predicate Unique(names: seq<string>, id: nat) {
    1 <= id <= |names| && forall i :: 0 <= i < |names| && i != id - 1 ==> names[i] != names[id - 1]
  }

  // ----- finding a step by a word -----

  predicate IsWordChar(c: char) {
    'a' <= c <= 'z' || 'A' <= c <= 'Z' || '0' <= c <= '9' || c == '_'
  }

  /** The word stands at position p, and no word character next to it. */
  predicate WordAt(line: string, w: string, p: nat) {
    && p + |w| <= |line| && line[p..p + |w|] == w
    && (p > 0 ==> !IsWordChar(line[p - 1]))
    && (p + |w| < |line| ==> !IsWordChar(line[p + |w|]))
  }

  /** grep -w, for a word without special characters. */
  predicate Grep(line: string, w: string) {
    exists p :: 0 <= p <= |line| && WordAt(line, w, p)
  }

  /** No letter, digit or underscore. */
  predicate NoWord(s: string) {
    forall c :: c in s ==> !('a' <= c <= 'z') && !('A' <= c <= 'Z') && !('0' <= c <= '9') && c != '_'
  }

  /** The line is the word with a, and b, beside it, which do not go on with the word. */
  predicate Around(line: string, w: string, a: string, b: string) {
    line == a + w + b && (a != "" ==> NoWord([a[|a| - 1]])) && (b != "" ==> NoWord([b[0]]))
  }

  /** A word is found in a line exactly if it stands there on its own. */
  lemma GrepIff(line: string, w: string)
    ensures Grep(line, w) <==> exists a, b :: Around(line, w, a, b)
  {
    hide WordAt, Around;
    if Grep(line, w) {
      var p :| 0 <= p <= |line| && WordAt(line, w, p);
      WordIsAround(line, w, p);
    }
    if a, b :| Around(line, w, a, b) {
      AroundIsWord(line, w, a, b);
    }
  }

  lemma WordIsAround(line: string, w: string, p: nat)
    requires p <= |line| && WordAt(line, w, p)
    ensures p + |w| <= |line| && Around(line, w, line[..p], line[p + |w|..])
  {
    var a, b := line[..p], line[p + |w|..];
    assert line == a + w + b;
    assert a != "" ==> a[|a| - 1] == line[p - 1];
    assert b != "" ==> b[0] == line[p + |w|];
  }

  lemma AroundIsWord(line: string, w: string, a: string, b: string)
    requires Around(line, w, a, b)
    ensures |a| <= |line| && WordAt(line, w, |a|)
  {
    assert line[|a|..|a| + |w|] == w;
    assert a != "" ==> a[|a| - 1] in [a[|a| - 1]];
    assert b != "" ==> b[0] in [b[0]];
  }

  /** Each step is listed with its number and its name. */
  function Line(names: seq<string>, id: nat): string
    requires 1 <= id <= |names|
  {
    DecimalNat(id) + [' '] + names[id - 1]
  }

  predicate InLine(names: seq<string>, w: string, id: nat) {
    1 <= id <= |names| && Grep(Line(names, id), w)
  }

  /** The word is in the line of this step only. */
  predicate OnlyLine(names: seq<string>, w: string, id: nat) {
    w != "" && InLine(names, w, id) && forall i :: 1 <= i <= |names| && i != id ==> !InLine(names, w, i)
  }

  lemma NameInLine(names: seq<string>, id: nat)
    requires 1 <= id <= |names|
    ensures InLine(names, names[id - 1], id)
  {
    assert WordAt(Line(names, id), names[id - 1], |DecimalNat(id)| + 1);
  }

  /** A word that is in one line only is the name of no other step. */
  lemma OnlyLineName(names: seq<string>, w: string, id: nat)
    requires OnlyLine(names, w, id)
    ensures names[id - 1] == w ==> Unique(names, id)
    ensures names[id - 1] != w ==> w !in names
  {
    forall i | 0 <= i < |names| && names[i] == w ensures i == id - 1 {
      NameInLine(names, i + 1);
    }
  }

  // ----- transitions -----

  function Resumed(names: seq<string>, file: File, k: nat): Phase {
    Select(k, if 1 <= k <= |names| then DurationRetry(file, k, names[k - 1]) else 0)
  }

  /** The step that has just succeeded is the reboot, and a reboot is configured. */
  predicate Rebooting(names: seq<string>, s: State) {
    s.reboots && s.phase.Done? && 1 <= s.phase.k <= |names| && names[s.phase.k - 1] == REBOOT
  }

  /** The state after an action, if the action is possible. */
  function Apply(names: seq<string>, s: State, a: Action): Option<State> {
    match a
    case Crash => Some(s.(phase := Idle))
    case Kill => Some(s.(locked := false))
    case Start(reboots) => if s.phase.Idle? && s.file == [] then Some(State(s.file, Skipping, true, reboots)) else None
    case Resume(reboots) =>
      if !s.phase.Idle? || StepNext(s.file).None? then None
      else if StepNext(s.file).value == 1 then Some(State(s.file, Skipping, true, reboots))
      else Some(State(s.file, Resumed(names, s.file, StepNext(s.file).value), true, reboots))
    case SkipRow(id, name) =>
      if s.phase.Skipping? && OnlyLine(names, name, id)
      then Some(s.(file := Put(s.file, Row(id, name, 0, 0, true)))) else None
    case SkipDone => if s.phase.Skipping? then Some(s.(phase := Resumed(names, s.file, 1))) else None
    case Skip =>
      if s.phase.Select? && 1 <= s.phase.k <= |names| && StepSkip(s.file, names[s.phase.k - 1])
      then Some(s.(phase := Select(s.phase.k + 1, 0))) else None
    case Launch => Launched(names, s)
    case Finish(exit, took) => Finished(names, s, exit, took)
    case Continue =>
      if s.phase.Done? && s.phase.exit == 0 && !Rebooting(names, s) && s.locked
      then Some(s.(phase := Select(s.phase.k + 1, 0))) else None
    case Reboot => if s.phase.Done? && s.phase.exit == 0 && Rebooting(names, s) then Some(s.(phase := Idle)) else None
    case Killed =>
      if s.phase.Done? && s.phase.exit == 0 && !Rebooting(names, s) && !s.locked then Some(s.(phase := Idle)) else None
    case Retry =>
      if s.phase.Done? && s.phase.exit == RETRY && StepNext(s.file).Some?
      then Some(s.(phase := Select(StepNext(s.file).value, s.phase.spent))) else None
    case Fail => if s.phase.Done? && s.phase.exit != 0 && s.phase.exit != RETRY then Some(s.(phase := Idle)) else None
    case EndStart =>
      if s.phase.Select? && 1 <= s.phase.k <= |names| && names[s.phase.k - 1] == END && !StepSkip(s.file, END)
      then Some(s.(file := Put(s.file, Row(s.phase.k, END, -1, -1, false)), phase := Ending(s.phase.k))) else None
    case EndDone =>
      if s.phase.Ending?
      then Some(s.(file := Put(s.file, Row(s.phase.k, END, 0, DurationTotal(s.file), false)), phase := Idle)) else None
    case OutOfSteps => if s.phase.Select? && s.phase.k > |names| then Some(s.(phase := Idle)) else None
  }

  /** A step is noted as running before it runs. */
  function Launched(names: seq<string>, s: State): Option<State> {
    if s.phase.Select? && 1 <= s.phase.k <= |names| then
      var k, name := s.phase.k, names[s.phase.k - 1];
      if name == END || StepSkip(s.file, name) then None
      else Some(s.(file := Put(s.file, Row(k, name, -1, -1, false)),
                   phase := Running(k, DurationRetry(s.file, k, name), s.phase.spent)))
    else None
  }

  /** The exit status is that of the step, or 125 if the hook says so. */
  function Finished(names: seq<string>, s: State, exit: nat, took: nat): Option<State> {
    if s.phase.Running? && 1 <= s.phase.k <= |names|
    then Some(s.(file := Put(s.file, Row(s.phase.k, names[s.phase.k - 1], exit, s.phase.before + took, false)),
                 phase := Done(s.phase.k, exit, s.phase.spent + took)))
    else None
  }

  /** The state after a run from an empty build directory. */
  function Reach(names: seq<string>, actions: seq<Action>): Option<State> {
    if actions == [] then Some(State([], Idle, false, false))
    else
      match Reach(names, actions[..|actions| - 1])
      case None => None
      case Some(s) => Apply(names, s, actions[|actions| - 1])
  }

  // ----- facts about the file -----

  predicate Ascending(file: File) {
    forall i, j :: 0 <= i < j < |file| ==> file[i].id < file[j].id
  }

  lemma {:induction false} PutAscending(file: File, r: Row)
    requires Ascending(file)
    ensures Ascending(Put(file, r)) && Put(file, r) != []
    ensures Put(file, r)[0] == r || (file != [] && Put(file, r)[0] == file[0])
  {
    if file != [] && r.id > file[0].id {
      PutAscending(file[1..], r);
    }
  }

  lemma {:induction false} GetAt(file: File, i: nat)
    requires Ascending(file) && i < |file|
    ensures Get(file, file[i].id) == Some(file[i])
  {
    if i == 0 {
    } else {
      assert file[0].id < file[i].id;
      GetAt(file[1..], i - 1);
    }
  }

  lemma {:induction false} GetFound(file: File, id: nat) returns (i: nat)
    requires Get(file, id).Some?
    ensures i < |file| && file[i] == Get(file, id).value && file[i].id == id
  {
    if file[0].id == id {
      i := 0;
    } else {
      i := GetFound(file[1..], id);
      i := i + 1;
    }
  }

  /** No id below the first one is there. */
  lemma {:induction false} GetSmall(file: File, id: nat)
    requires Ascending(file) && (file == [] || id < file[0].id)
    ensures Get(file, id).None?
  {
    if |file| > 1 {
      assert file[0].id < file[1].id;
      GetSmall(file[1..], id);
    }
  }

  lemma {:induction false} GetPut(file: File, r: Row, id: nat)
    requires Ascending(file)
    ensures Get(Put(file, r), id) == if id == r.id then Some(r) else Get(file, id)
  {
    if file == [] || r.id <= file[0].id {
      assert ([r] + file)[1..] == file;
      if file != [] && r.id == file[0].id {
        assert ([r] + file[1..])[1..] == file[1..];
      }
    } else {
      GetPut(file[1..], r, id);
    }
  }

  lemma {:induction false} GetLast(file: File, id: nat)
    requires Ascending(file) && file != []
    ensures var n := |file| - 1;
            Get(file, id) == if id == file[n].id then Some(file[n]) else Get(file[..n], id)
  {
    var n := |file| - 1;
    if n == 0 {
    } else {
      assert file[0].id < file[n].id;
      assert file[..n][1..] == file[1..][..n - 1];
      GetLast(file[1..], id);
    }
  }

  lemma {:induction false} FirstNamedIs(file: File, name: string, id: nat)
    requires Ascending(file)
    ensures FirstNamed(file, name).Some? ==>
              var r := FirstNamed(file, name).value; r.name == name && Get(file, r.id) == Some(r)
    ensures FirstNamed(file, name).None? && Get(file, id).Some? ==> Get(file, id).value.name != name
  {
    if file != [] && file[0].name != name {
      FirstNamedIs(file[1..], name, id);
      if FirstNamed(file[1..], name).Some? {
        GetSmall(file[1..], file[0].id);
      }
    }
  }

  /** Ids from 1 to k stand at their positions if they are all there. */
  lemma {:induction false} Positions(file: File, k: nat)
    requires Ascending(file) && Get(file, 0).None?
    requires forall id: nat :: 1 <= id <= k ==> Get(file, id).Some?
    ensures |file| >= k && forall i :: 0 <= i < k ==> file[i].id == i + 1
  {
    if k == 0 {
    } else {
      Positions(file, k - 1);
      var at := GetFound(file, k);
      assert at >= k - 1;
      GetAt(file, k - 1);
      if k > 1 {
        assert file[k - 2].id < file[k - 1].id;
      }
    }
  }
}
