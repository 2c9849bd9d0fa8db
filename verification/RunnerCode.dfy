/**
 The shell functions of util.sh for modes without parallel steps, as code. What
 steps, hooks and kills do is given in advance; when no outcome is left, the
 machine crashes while a step runs.
 */
module RunnerCode {
  import opened Wrappers
  import opened Runner
  import opened RunnerSafety

  /** How one attempt at a step goes: its exit status, its time, whether the hook wants another, and whether a kill came. */
  datatype Outcome = Outcome(exit: nat, took: nat, hookRetry: bool, killed: bool)

  datatype Exit = Returned(code: nat) | Crashed

  class Machine {
    const names: seq<string>
    const rebootEnabled: bool
    var file: File
    var outcomes: seq<Outcome>
    /** Whether the lock of the build is held; a kill takes it away. */
    var locked: bool
    ghost var actions: seq<Action>
    ghost var phase: Phase
    ghost var reboots: bool

    /** All that was done so far is a run of the transition system. */
    ghost predicate Valid()
      reads this
    {
      && StepList(names) && Reach(names, actions) == Some(Now())
      && (phase.Idle? || reboots == rebootEnabled)
    }

    ghost function Now(): State
      reads this
    {
      State(file, phase, locked, reboots)
    }

    constructor (names: seq<string>, rebootEnabled: bool)
      requires StepList(names)
      ensures Valid() && file == [] && phase == Idle && this.names == names && this.rebootEnabled == rebootEnabled
    {
      this.names, this.rebootEnabled := names, rebootEnabled;
      file, outcomes, locked := [], [], false;
      actions, phase, reboots := [], Idle, false;
    }

    /** A decision that does not write the file. */
    ghost method Do(a: Action, p: Phase)
      requires Valid() && Apply(names, Now(), a) == Some(Now().(phase := p)) && (p.Idle? || reboots == rebootEnabled)
      modifies `actions, `phase
      ensures Valid() && phase == p && actions == old(actions) + [a]
    {
      ReachOne(names, actions, a);
      actions, phase := actions + [a], p;
    }

    /** Takes the lock and begins an invocation, or goes on with the build there is. */
    method TakeLock(ghost a: Action, ghost p: Phase)
      requires Valid() && Apply(names, Now(), a) == Some(State(file, p, true, rebootEnabled))
      modifies `locked, `reboots, `actions, `phase
      ensures Valid() && phase == p && locked && actions == old(actions) + [a]
    {
      ReachOne(names, actions, a);
      locked, reboots := true, rebootEnabled;
      actions, phase := actions + [a], p;
    }

    /** A kill takes the lock away. */
    method LoseLock()
      requires Valid()
      modifies `locked, `actions
      ensures Valid() && !locked && actions == old(actions) + [Kill]
    {
      ReachOne(names, actions, Kill);
      locked, actions := false, actions + [Kill];
    }

    method StepWrite(r: Row, ghost a: Action, ghost p: Phase)
      requires Valid() && Apply(names, Now(), a) == Some(Now().(file := Put(file, r), phase := p))
      requires p.Idle? || reboots == rebootEnabled
      modifies `file, `actions, `phase
      ensures Valid() && phase == p && file == Put(old(file), r) && actions == old(actions) + [a]
    {
      ReachOne(names, actions, a);
      file := Put(file, r);
      actions, phase := actions + [a], p;
    }

    /** Looks at the rows from the last one on. */
    method NextStep() returns (step: Option<nat>)
      ensures step == StepNext(file)
    {
      var i := 1;
      assert file[..|file|] == file;
      while RowAt(file, -i).Some?
        invariant 1 <= i <= |file| + 1 && StepNext(file) == StepNext(file[..|file| + 1 - i])
        decreases |file| - i
      {
        var r := RowAt(file, -i).value;
        ghost var seen := file[..|file| + 1 - i];
        assert seen[|seen| - 1] == r && seen[..|seen| - 1] == file[..|file| - i];
        i := i + 1;
        if r.skip {
          continue;
        }
        if r.exit != 0 {
          return Some(r.id);
        }
        if r.name == END {
          return Some(r.id);
        }
        return Some(r.id + 1);
      }
      return None;
    }

    /** The accumulated duration, by position until there is no further row. */
    method TotalDuration() returns (total: int)
      ensures total == DurationTotal(file)
    {
      total := 0;
      var i := 1;
      assert file[0..] == file;
      while RowAt(file, i).Some?
        invariant 1 <= i <= |file| + 1 && DurationTotal(file) == total + DurationTotal(file[i - 1..])
        decreases |file| - i
      {
        assert file[i - 1..][0] == file[i - 1] && file[i - 1..][1..] == file[i..];
        var r := RowAt(file, i).value;
        i := i + 1;
        if r.skip {
          continue;
        }
        if r.name == END {
          continue;
        }
        total := total + r.duration;
      }
    }

    /**
     Runs one step: two writes with the step and its hook between them. The exit code
     is that of the step, or 125 if the hook asks for another attempt.
     */
    method StepExecJob(id: nat) returns (exit: Exit)
      requires Valid() && phase.Select? && phase.k == id <= |names| && id > 0
      requires names[id - 1] != END && !StepSkip(file, names[id - 1])
      modifies this
      ensures Valid() && (exit == Crashed <==> old(outcomes) == [])
      ensures exit == Crashed ==> phase == Idle && outcomes == [] && file == old(Noted(id))
      ensures exit.Returned? ==> |actions| > 0 && actions[|actions| - 1] == Finish(exit.code, old(outcomes)[0].took)
      ensures exit.Returned? ==>
                var o := old(outcomes)[0];
                && exit.code == (if o.hookRetry then 125 else o.exit)
                && outcomes == old(outcomes)[1..] && locked == (old(locked) && !o.killed)
                && phase == Done(id, exit.code, old(phase.spent) + o.took)
                && file == Put(old(Noted(id)), Row(id, names[id - 1], exit.code,
                                                   old(DurationRetry(file, id, names[id - 1])) + o.took, false))
    {
      hide Reach, Put, StepNext, DurationRetry, DurationTotal, FirstNamed, StepList;
      var name := names[id - 1];
      ghost var spent := phase.spent;
      var retry := DurationRetry(file, id, name);
      StepWrite(Row(id, name, -1, -1, false), Launch, Running(id, retry, spent));
      if outcomes == [] {
        Do(Crash, Idle);
        return Crashed;
      }
      var o := outcomes[0];
      outcomes := outcomes[1..];
      if o.killed {
        LoseLock();
      }
      var code := if o.hookRetry then 125 else o.exit;
      StepWrite(Row(id, name, code, retry + o.took, false), Finish(code, o.took), Done(id, code, spent + o.took));
      return Returned(code);
    }

    /** The file where a step is noted as running. */
    function Noted(id: nat): File
      requires 1 <= id <= |names|
      reads this
    {
      Put(file, Row(id, names[id - 1], -1, -1, false))
    }

    /** The end is written twice: as running, and with the total of all steps. */
    method RunEnd(id: nat)
      requires Valid() && phase.Select? && phase.k == id <= |names| && id > 0
      requires names[id - 1] == END && !StepSkip(file, END)
      modifies `file, `actions, `phase
      ensures Valid() && phase == Idle && actions != [] && actions[|actions| - 1] == EndDone
    {
      StepWrite(Row(id, END, -1, -1, false), EndStart, Ending(id));
      var total := TotalDuration();
      StepWrite(Row(id, END, 0, total, false), EndDone, Idle);
    }

    /** The attempts all succeed, and no kill comes. */
    static predicate Fine(outcomes: seq<Outcome>) {
      forall i :: 0 <= i < |outcomes| ==> outcomes[i].exit == 0 && !outcomes[i].hookRetry && !outcomes[i].killed
    }

    /** What an exit code of the loop means. */
    ghost predicate Means(exit: Exit, wasLocked: bool)
      reads this
    {
      match exit
      case Crashed => phase == Idle
      case Returned(code) =>
        && actions != []
        && match actions[|actions| - 1]
           case EndDone => code == 0 && phase == Idle && (wasLocked ==> locked)
           case OutOfSteps => code == 0 && phase == Idle && (wasLocked ==> locked)
           case Reboot => code == 0 && phase == Idle && rebootEnabled
           case Killed => code == 1 && phase == Idle && !locked
           case Fail => phase == Idle && code != 0 && code != 125 && EndedWith(|actions| - 2, code)
           case _ => code == 125 && phase.Done? && phase.exit == 125 && EndedWith(|actions| - 1, 125)
    }

    /** Action i is the end of an attempt, with this exit status. */
    ghost predicate EndedWith(i: int, code: nat)
      reads this
    {
      0 <= i < |actions| && actions[i].Finish? && actions[i].exit == code
    }

    /** The step is neither skipped nor the end. */
    predicate ToRun(step: nat)
      reads this
    {
      1 <= step <= |names| && names[step - 1] != END && !StepSkip(file, names[step - 1])
    }

    /** Runs a step and goes on behind it, unless it failed, a reboot is due or a kill came. */
    method RunStep(k: nat) returns (over: Option<Exit>)
      requires Valid() && phase.Select? && phase.k == k && ToRun(k)
      modifies this
      ensures Valid() && |outcomes| <= |old(outcomes)| && (old(outcomes) != [] ==> outcomes == old(outcomes)[1..])
      ensures over.None? ==> phase == Select(k + 1, 0) && locked && old(locked)
      ensures over.Some? ==> Means(over.value, true) && (over.value.Returned? ==> |outcomes| < |old(outcomes)|)
      ensures old(locked) && old(outcomes) != [] && Fine(old(outcomes)) ==> over.None? || over == Some(Returned(0))
    {
      hide Reach, Put, StepNext, DurationRetry, DurationTotal, FirstNamed;
      var name := names[k - 1];
      var exit := StepExecJob(k);
      if exit.Crashed? {
        return Some(exit);
      }
      if exit.code != 0 {
        if exit.code != 125 {
          Do(Fail, Idle);
        }
        return Some(exit);
      }
      if name == REBOOT && rebootEnabled {
        Do(Reboot, Idle);
        return Some(Returned(0));
      }
      if !locked {
        Do(Killed, Idle);
        return Some(Returned(1));
      }
      Do(Continue, Select(k + 1, 0));
      return None;
    }

    /**
     The steps from a given one on. Success means the end, a reboot, or that the end is
     skipped; it comes with the lock still held, unless the reboot stops the loop. A
     failure is that of the last attempt, or 1 after a kill. With a lock and attempts
     that succeed there is none.
     */
    method RobsdExecSteps(step: nat) returns (exit: Exit)
      requires Valid() && phase.Select? && phase.k == step > 0
      modifies this
      ensures Valid() && |outcomes| <= |old(outcomes)|
      ensures exit == Returned(RETRY) ==> |outcomes| < |old(outcomes)|
      ensures Means(exit, old(locked)) && (old(ToRun(step)) ==> Means(exit, true))
      ensures old(locked) && Fine(old(outcomes)) && |old(outcomes)| >= |names| ==> exit == Returned(0)
    {
      hide Reach, Put, StepNext, DurationRetry, DurationTotal, FirstNamed;
      var k := step;
      while k <= |names|
        invariant Valid() && phase.Select? && phase.k == k > 0 && |outcomes| <= |old(outcomes)|
        invariant locked == old(locked) && (locked || (k == step && file == old(file)) || !old(ToRun(step)))
        invariant old(locked) && Fine(old(outcomes)) ==> Fine(outcomes) && |outcomes| + k >= |old(outcomes)| + step
      {
        var name := names[k - 1];
        if StepSkip(file, name) {
          Do(Skip, Select(k + 1, 0));
          k := k + 1;
          continue;
        }
        if name == END {
          RunEnd(k);
          return Returned(0);
        }
        var over := RunStep(k);
        if over.Some? {
          return over.value;
        }
        k := k + 1;
      }
      Do(OutOfSteps, Idle);
      return Returned(0);
    }

    /** After exit code 125, step_next finds the step that gave it. */
    method TryAgain() returns (step: nat)
      requires Valid() && phase.Done? && phase.exit == RETRY
      modifies `actions, `phase
      ensures Valid() && step == old(phase.k) > 0 && phase == Select(step, old(phase.spent))
      ensures actions == old(actions) + [Retry] && ToRun(step)
    {
      RunKeeps(names, actions);
      RetryKeeps(names, file, phase.k, phase.spent);
      var next := NextStep();
      step := next.value;
      Do(Retry, Select(step, phase.spent));
    }

    /** The main loop: a step that asks for it is tried again. */
    method Robsd(start: nat) returns (exit: Exit)
      requires Valid() && phase.Select? && phase.k == start > 0 && locked
      modifies this
      ensures Valid() && phase == Idle && exit != Returned(125) && Means(exit, true)
      ensures Fine(old(outcomes)) && |old(outcomes)| >= |names| ==> exit == Returned(0)
    {
      var step := start;
      while true
        invariant Valid() && phase.Select? && phase.k == step > 0 && (locked || ToRun(step))
        invariant Fine(old(outcomes)) && |old(outcomes)| >= |names| ==> outcomes == old(outcomes) && locked
        decreases |outcomes|
      {
        exit := RobsdExecSteps(step);
        if exit == Returned(125) {
          step := TryAgain();
        } else {
          return;
        }
      }
    }

    /** The numbers of the steps in whose lines the word is, in order; step_id fails if there are none. */
    method StepId(name: string) returns (ids: seq<nat>)
      ensures forall i: nat :: i in ids <==> InLine(names, name, i)
      ensures forall i, j :: 0 <= i < j < |ids| ==> ids[i] < ids[j]
    {
      ids := [];
      for i := 1 to |names| + 1
        invariant forall j: nat :: j in ids <==> InLine(names, name, j) && j < i
        invariant forall j, k :: 0 <= j < k < |ids| ==> ids[j] < ids[k]
      {
        if Grep(Line(names, i), name) {
          assert forall j :: 0 <= j < |ids| ==> ids[j] in ids;
          ids := ids + [i];
        }
      }
    }

    /** The word is in the line of exactly one step. */
    static ghost predicate Found(names: seq<string>, w: string) {
      exists id: nat :: OnlyLine(names, w, id)
    }

    static lemma FoundIff(names: seq<string>, w: string, ids: seq<nat>)
      requires w != "" && forall i: nat :: i in ids <==> InLine(names, w, i)
      requires forall i, j :: 0 <= i < j < |ids| ==> ids[i] < ids[j]
      ensures Found(names, w) <==> |ids| == 1
      ensures |ids| == 1 ==> OnlyLine(names, w, ids[0])
    {
      if |ids| == 1 {
        assert ids[0] in ids;
        assert OnlyLine(names, w, ids[0]);
      } else if |ids| > 1 {
        assert ids[0] in ids && ids[1] in ids;
        assert InLine(names, w, ids[0]) && InLine(names, w, ids[1]);
      }
    }

    /** The words of the list of steps to skip; none is empty. */
    predicate Words(skip: seq<string>) {
      forall i :: 0 <= i < |skip| ==> skip[i] != ""
    }

    /** Marks steps as skipped; fails for a word that is in no line or in several. */
    method WriteSkips(skip: seq<string>) returns (error: bool)
      requires Valid() && phase == Skipping && Words(skip)
      modifies `file, `actions, `phase
      ensures Valid() && phase == Skipping
      ensures error <==> exists i :: 0 <= i < |skip| && !Found(names, skip[i])
    {
      hide Reach, Put, OnlyLine, InLine, StepList;
      for i := 0 to |skip|
        invariant Valid() && phase == Skipping
        invariant forall j :: 0 <= j < i ==> Found(names, skip[j])
      {
        var ids := StepId(skip[i]);
        FoundIff(names, skip[i], ids);
        if |ids| != 1 {
          return true;
        }
        StepWrite(Row(ids[0], skip[i], 0, 0, true), SkipRow(ids[0], skip[i]), Skipping);
      }
      return false;
    }

    /**
     One invocation: in a new build directory, or resuming in the one there is.
     It can be followed by any number of others.
     */
    method Invoke(resume: bool, skip: seq<string>, outcomes: seq<Outcome>) returns (exit: Exit)
      requires Valid() && phase == Idle && (!resume ==> file == []) && Words(skip)
      modifies this
      ensures Valid() && phase == Idle && Safe(names, file)
      ensures old(Refused(resume, skip)) ==> exit == Returned(1)
      ensures !old(Refused(resume, skip)) ==> exit != Returned(125) && Means(exit, true)
      ensures !old(Refused(resume, skip)) && Fine(outcomes) && |outcomes| >= |names| ==> exit == Returned(0)
    {
      this.outcomes := outcomes;
      var step := Begin(resume, skip);
      exit := Returned(1);
      if step.Some? {
        exit := Robsd(step.value);
      }
      RunKeeps(names, actions);
      InvariantIsSafe(names, Now());
    }

    /** There is no step to go on with, or some word for a step to skip is in no line or in several. */
    ghost predicate Refused(resume: bool, skip: seq<string>)
      reads this
    {
      || (resume && StepNext(file).None?)
      || ((!resume || StepNext(file) == Some(1)) && exists i :: 0 <= i < |skip| && !Found(names, skip[i]))
    }

    /** Finds the first step, and marks the skipped ones if it is the first of all. None is an error exit. */
    method Begin(resume: bool, skip: seq<string>) returns (first: Option<nat>)
      requires Valid() && phase == Idle && (!resume ==> file == []) && Words(skip)
      modifies `file, `actions, `phase, `locked, `reboots
      ensures Valid() && (first.None? <==> old(Refused(resume, skip)))
      ensures first.Some? ==> phase.Select? && phase.k == first.value > 0 && locked
      ensures first.None? ==> phase == Idle
    {
      RunKeeps(names, actions);
      var step := 1;
      if resume {
        var next := NextStep();
        if next.None? {
          return None;
        }
        step := next.value;
        ResumeReady(names, file);
      }
      if step != 1 {
        TakeLock(Resume(rebootEnabled), Resumed(names, file, step));
        return Some(step);
      }
      TakeLock(if resume then Resume(rebootEnabled) else Start(rebootEnabled), Skipping);
      var error := WriteSkips(skip);
      if error {
        Do(Crash, Idle);
        return None;
      }
      Do(SkipDone, Resumed(names, file, 1));
      return Some(1);
    }
  }
}
