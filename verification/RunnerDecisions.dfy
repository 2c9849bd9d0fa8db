/**
 What the step loop decides after a step: that it goes on, stops for a reboot or a
 kill, tries the step again or fails, and which of these it is.
 */
module RunnerDecisions {
  import opened Wrappers
  import opened Text
  import opened Runner
  import opened RunnerSafety

  /** What the shell code decides; all else is done to it. */
  predicate Decision(a: Action) {
    || a.Skip? || a.Launch? || a.EndStart? || a.OutOfSteps? || a.EndDone?
    || a.Continue? || a.Reboot? || a.Killed? || a.Retry? || a.Fail?
  }

  predicate Possible(names: seq<string>, s: State, a: Action) {
    Apply(names, s, a).Some?
  }

  predicate Deciding(s: State) {
    s.phase.Select? || s.phase.Done? || s.phase.Ending?
  }

  /** What is decided in a state before or after a step. */
  function Decided(names: seq<string>, s: State): Action
    requires Deciding(s)
  {
    match s.phase
    case Select(k, _) =>
      if k > |names| then OutOfSteps
      else if k > 0 && StepSkip(s.file, names[k - 1]) then Skip
      else if k > 0 && names[k - 1] == "end" then EndStart
      else Launch
    case Done(k, exit, _) =>
      if exit == 125 then Retry
      else if exit != 0 then Fail
      else if s.reboots && 1 <= k <= |names| && names[k - 1] == "reboot" then Reboot
      else if !s.locked then Killed
      else Continue
    case _ => EndDone
  }

  /** In every state that a run can reach, exactly one decision is possible. */
  lemma OneDecision(names: seq<string>, actions: seq<Action>, a: Action)
    requires StepList(names) && Reach(names, actions).Some? && Decision(a)
    ensures var s := Reach(names, actions).value; Possible(names, s, a) <==> Deciding(s) && a == Decided(names, s)
  {
    RunKeeps(names, actions);
    var s := Reach(names, actions).value;
    if s.phase.Done? && s.phase.exit == 125 {
      RetryKeeps(names, s.file, s.phase.k, s.phase.spent);
    }
  }

  // ----- kills -----

  /** The actions are those of one invocation. */
  predicate OneInvocation(actions: seq<Action>) {
    forall i :: 0 <= i < |actions| ==> !actions[i].Start? && !actions[i].Resume?
  }

  /** The action begins no other step and records no end. */
  predicate Stays(a: Action) {
    !(a.Continue? || a.Skip? || a.EndStart? || a.EndDone? || a.OutOfSteps?)
  }

  /** Step k runs or has just run. */
  predicate AtStep(s: State, k: nat) {
    (s.phase.Running? || s.phase.Done?) && s.phase.k == k
  }

  /** The lock is lost, and the loop is at step k, is about to try it again, or is over. */
  ghost predicate Stopping(names: seq<string>, s: State, k: nat) {
    && !s.locked && Invariant(names, s)
    && match s.phase
       case Idle => true
       case Running(j, _, _) => j == k
       case Done(j, _, _) => j == k
       case Select(j, _) => j == k <= |names| && names[k - 1] != END && !StepSkip(s.file, names[k - 1])
       case _ => false
  }

  lemma StopStep(names: seq<string>, s: State, k: nat, a: Action)
    requires StepList(names) && Stopping(names, s, k) && Apply(names, s, a).Some? && !a.Start? && !a.Resume?
    ensures Stopping(names, Apply(names, s, a).value, k) && Stays(a)
  {
    StepKeeps(names, s, a);
    if a.Retry? {
      RetryKeeps(names, s.file, k, s.phase.spent);
    }
  }

  /**
   Once a kill came while step k ran or had just run, the invocation starts no other
   step: it tries step k again, or it is over, and no end is recorded.
   */
  lemma KillStops(names: seq<string>, before: seq<Action>, after: seq<Action>, k: nat)
    requires StepList(names) && Reach(names, before).Some? && AtStep(Reach(names, before).value, k)
    requires OneInvocation(after) && Reach(names, before + [Kill] + after).Some?
    ensures forall i :: 0 <= i < |after| ==> Stays(after[i])
    ensures var s := Reach(names, before + [Kill] + after).value; s.phase.Idle? || (s.phase.Select? && s.phase.k == k) || AtStep(s, k)
  {
    assert after[..|after|] == after;
    KillReach(names, before, after, k, |after|);
  }

  lemma KillFirst(names: seq<string>, before: seq<Action>, k: nat)
    requires StepList(names) && Reach(names, before).Some? && AtStep(Reach(names, before).value, k)
    ensures Reach(names, before + [Kill]).Some? && Stopping(names, Reach(names, before + [Kill]).value, k)
  {
    RunKeeps(names, before);
    ReachOne(names, before, Kill);
  }

  lemma {:induction false} KillReach(names: seq<string>, before: seq<Action>, after: seq<Action>, k: nat, n: nat)
    requires StepList(names) && Reach(names, before).Some? && AtStep(Reach(names, before).value, k)
    requires n <= |after| && OneInvocation(after) && Reach(names, before + [Kill] + after[..n]).Some?
    ensures Stopping(names, Reach(names, before + [Kill] + after[..n]).value, k)
    ensures forall i :: 0 <= i < n ==> Stays(after[i])
  {
    hide Stopping, Apply, Stays;
    if n == 0 {
      KillFirst(names, before, k);
      assert before + [Kill] + after[..0] == before + [Kill];
    } else {
      var actions := before + [Kill] + after[..n];
      assert actions[..|actions| - 1] == before + [Kill] + after[..n - 1];
      KillReach(names, before, after, k, n - 1);
      StopStep(names, Reach(names, before + [Kill] + after[..n - 1]).value, k, after[n - 1]);
    }
  }

  // ----- reboots -----

  /** The step has just succeeded. */
  predicate Succeeded(s: State, k: nat) {
    s.phase.Done? && s.phase.k == k && s.phase.exit == 0
  }

  /**
   Where a reboot is configured, nothing can follow the success of the reboot step but
   the end of the invocation; where none is, only the step behind it can be selected.
   */
  lemma RebootStops(names: seq<string>, actions: seq<Action>, k: nat, a: Action)
    requires StepList(names) && Reach(names, actions).Some? && Succeeded(Reach(names, actions).value, k)
    requires 1 <= k <= |names| && names[k - 1] == "reboot" && !a.Kill? && !a.Crash?
    ensures var s := Reach(names, actions).value;
            && (s.reboots ==> (Apply(names, s, a) == if a == Reboot then Some(s.(phase := Idle)) else None))
            && (!s.reboots && s.locked ==> (Apply(names, s, a) == if a == Continue then Some(s.(phase := Select(k + 1, 0))) else None))
  {
    hide Reach, Put, DurationTotal, StepNext, DurationRetry, FirstNamed, StepList;
    if Decision(a) {
      OneDecision(names, actions, a);
    }
  }

  /** Without a kill the loop goes on behind a step that has succeeded, unless a reboot is configured and this is it. */
  lemma GoesOn(names: seq<string>, actions: seq<Action>, k: nat)
    requires StepList(names) && Reach(names, actions).Some? && Succeeded(Reach(names, actions).value, k)
    requires var s := Reach(names, actions).value; s.locked && (s.reboots ==> 1 <= k <= |names| && names[k - 1] != "reboot")
    ensures Apply(names, Reach(names, actions).value, Continue) == Some(Reach(names, actions).value.(phase := Select(k + 1, 0)))
  {
    hide Reach, Put, DurationTotal, StepNext, DurationRetry, FirstNamed, StepList;
    OneDecision(names, actions, Continue);
  }
}
