/**
 util.sh, modes with parallel steps: how jobs are started and waited for, as a
 transition system. Steps are numbered from 1 and double as process ids. A job can
 end at any time. Waits are assumed to work: they return once what they wait for
 has ended.
 */
module Parallel {
  import opened Wrappers

  datatype Step = Step(parallel: bool, skipped: bool, end: bool)

  /** Why a pass over the steps is over. */
  datatype Cause = EndDone | Killed | StepFailed(code: nat) | NoMoreSteps

  /** Where the shell code is: before a step, in one that it waits for, or after one. */
  datatype Control = Top | Busy | Check | Over(cause: Cause)

  /**
   `jobs` is what the shell believes to be running, `live` what is running in the
   background; `locked` says whether the lock of the build is held.
   */
  datatype State = State(k: nat, jobs: seq<nat>, live: set<nat>, started: seq<nat>, control: Control, locked: bool)

  /** Jobs end, and a kill takes the lock away, at any time; all else is what the shell does. */
  datatype Action =
    | Ended(ids: set<nat>)
    | Kill
    | Skip
    | WaitAny(gone: set<nat>)
    | Fork
    | Barrier
    | Sync
    | SyncDone(exit: nat)
    | RunEnd
    | Alive
    | KillSeen
    | OutOfSteps

  /** The jobs without those that are gone, in the same order. */
  function Without(jobs: seq<nat>, gone: set<nat>): seq<nat> {
    if jobs == [] then []
    else if jobs[0] in gone then Without(jobs[1..], gone)
    else [jobs[0]] + Without(jobs[1..], gone)
  }

  function Elements(jobs: seq<nat>): set<nat> {
    set j | j in jobs
  }

  /** Before a step of the list that is not skipped. */
  predicate At(steps: seq<Step>, s: State) {
    s.control == Top && 1 <= s.k <= |steps| && !steps[s.k - 1].skipped
  }

  function Apply(ncpu: nat, steps: seq<Step>, s: State, a: Action): Option<State> {
    match a
    case Ended(ids) => Some(s.(live := s.live - ids))
    case Kill => Some(s.(locked := false))
    case Skip =>
      if s.control == Top && 1 <= s.k <= |steps| && steps[s.k - 1].skipped then Some(s.(k := s.k + 1)) else None
    case WaitAny(gone) =>
      if At(steps, s) && steps[s.k - 1].parallel && |s.jobs| == ncpu && gone != {} && gone <= Elements(s.jobs) - s.live
      then Some(s.(jobs := Without(s.jobs, gone))) else None
    case Fork =>
      if At(steps, s) && steps[s.k - 1].parallel && |s.jobs| != ncpu
      then Some(s.(jobs := s.jobs + [s.k], live := s.live + {s.k}, started := s.started + [s.k], control := Check)) else None
    case Barrier =>
      if At(steps, s) && !steps[s.k - 1].parallel && s.jobs != [] && Elements(s.jobs) !! s.live
      then Some(s.(jobs := [])) else None
    case Sync =>
      if At(steps, s) && !steps[s.k - 1].parallel && s.jobs == [] && !steps[s.k - 1].end
      then Some(s.(started := s.started + [s.k], control := Busy)) else None
    case SyncDone(exit) =>
      if s.control == Busy then Some(s.(control := if exit == 0 then Check else Over(StepFailed(exit)))) else None
    case RunEnd =>
      if At(steps, s) && !steps[s.k - 1].parallel && s.jobs == [] && steps[s.k - 1].end
      then Some(s.(started := s.started + [s.k], control := Over(EndDone))) else None
    case Alive => if s.control == Check && s.locked then Some(s.(k := s.k + 1, control := Top)) else None
    case KillSeen =>
      if s.control == Check && !s.locked && Elements(s.jobs) !! s.live then Some(s.(control := Over(Killed))) else None
    case OutOfSteps => if s.control == Top && s.k > |steps| then Some(s.(control := Over(NoMoreSteps))) else None
  }

  /** The state of a pass that starts at step `first`. */
  function Reach(ncpu: nat, steps: seq<Step>, first: nat, actions: seq<Action>): Option<State> {
    if actions == [] then Some(State(first, [], {}, [], Top, true))
    else
      match Reach(ncpu, steps, first, actions[..|actions| - 1])
      case None => None
      case Some(s) => Apply(ncpu, steps, s, actions[|actions| - 1])
  }

  // ----- invariant -----

  predicate Increasing(ids: seq<nat>) {
    forall i, j :: 0 <= i < j < |ids| ==> ids[i] < ids[j]
  }

  predicate Invariant(ncpu: nat, steps: seq<Step>, s: State) {
    && s.live <= Elements(s.jobs) && |s.jobs| <= ncpu
    && Increasing(s.started)
    && (forall i :: 0 <= i < |s.started| ==> s.started[i] < s.k || (s.started[i] == s.k && s.control != Top))
    && match s.control
       case Top => true
       case Busy => s.jobs == [] && At(steps, s.(control := Top)) && !steps[s.k - 1].parallel && !steps[s.k - 1].end
       case Check => At(steps, s.(control := Top)) && (steps[s.k - 1].end ==> steps[s.k - 1].parallel)
       case Over(EndDone) => s.jobs == [] && At(steps, s.(control := Top)) && !steps[s.k - 1].parallel
       case Over(NoMoreSteps) => s.k > |steps|
       case Over(_) => s.live == {}
  }

  lemma {:induction false} WithoutIs(jobs: seq<nat>, gone: set<nat>)
    ensures Elements(Without(jobs, gone)) == Elements(jobs) - gone
    ensures |Without(jobs, gone)| <= |jobs|
    ensures gone * Elements(jobs) != {} ==> |Without(jobs, gone)| < |jobs|
  {
    if jobs == [] {
    } else {
      WithoutIs(jobs[1..], gone);
      assert jobs == [jobs[0]] + jobs[1..];
      assert Elements(jobs) == {jobs[0]} + Elements(jobs[1..]);
      var rest := Without(jobs[1..], gone);
      assert Elements([jobs[0]] + rest) == {jobs[0]} + Elements(rest);
    }
  }

  lemma {:induction false} ElementsBound(jobs: seq<nat>)
    ensures |Elements(jobs)| <= |jobs|
  {
    if jobs == [] {
    } else {
      ElementsBound(jobs[1..]);
      assert jobs == [jobs[0]] + jobs[1..];
      assert Elements(jobs) == {jobs[0]} + Elements(jobs[1..]);
    }
  }

  lemma SubsetBound(a: set<nat>, b: set<nat>)
    requires a <= b
    ensures |a| <= |b|
    decreases a
  {
    if x :| x in a {
      SubsetBound(a - {x}, b - {x});
    }
  }

  lemma StepKeeps(ncpu: nat, steps: seq<Step>, s: State, a: Action)
    requires ncpu > 0 && Invariant(ncpu, steps, s) && Apply(ncpu, steps, s, a).Some?
    ensures Invariant(ncpu, steps, Apply(ncpu, steps, s, a).value)
  {
    hide Increasing, Elements, Without;
    NoElements();
    if a.WaitAny? {
      WithoutIs(s.jobs, a.gone);
    } else if a.Fork? || a.Sync? || a.RunEnd? {
      StartKeeps(ncpu, steps, s, a);
    } else if a.Barrier? || a.KillSeen? {
      assert s.live == {};
    }
  }

  lemma StartKeeps(ncpu: nat, steps: seq<Step>, s: State, a: Action)
    requires ncpu > 0 && Invariant(ncpu, steps, s) && Apply(ncpu, steps, s, a).Some? && (a.Fork? || a.Sync? || a.RunEnd?)
    ensures Invariant(ncpu, steps, Apply(ncpu, steps, s, a).value)
  {
    hide Increasing, Elements;
    ElementsMore(s.jobs, s.k);
    IncreasingMore(s.started, s.k);
  }

  lemma NoElements()
    ensures Elements([]) == {}
  {}

  lemma ElementsMore(jobs: seq<nat>, j: nat)
    ensures Elements(jobs + [j]) == Elements(jobs) + {j}
  {}

  lemma IncreasingMore(ids: seq<nat>, k: nat)
    requires Increasing(ids) && forall i :: 0 <= i < |ids| ==> ids[i] < k
    ensures Increasing(ids + [k])
  {}

  lemma {:induction false} RunKeeps(ncpu: nat, steps: seq<Step>, first: nat, actions: seq<Action>)
    requires ncpu > 0 && Reach(ncpu, steps, first, actions).Some?
    ensures Invariant(ncpu, steps, Reach(ncpu, steps, first, actions).value)
  {
    if actions == [] {
    } else {
      var n := |actions| - 1;
      RunKeeps(ncpu, steps, first, actions[..n]);
      StepKeeps(ncpu, steps, Reach(ncpu, steps, first, actions[..n]).value, actions[n]);
    }
  }

  // ----- main results -----

  /** Never more jobs run than there are processors. */
  lemma AtMostNcpu(ncpu: nat, steps: seq<Step>, first: nat, actions: seq<Action>)
    requires ncpu > 0 && Reach(ncpu, steps, first, actions).Some?
    ensures |Reach(ncpu, steps, first, actions).value.live| <= ncpu
  {
    RunKeeps(ncpu, steps, first, actions);
    var s := Reach(ncpu, steps, first, actions).value;
    ElementsBound(s.jobs);
    SubsetBound(s.live, Elements(s.jobs));
  }

  /** A step that is not parallel, the end included, runs alone. */
  lemma SyncRunsAlone(ncpu: nat, steps: seq<Step>, first: nat, actions: seq<Action>)
    requires ncpu > 0 && Reach(ncpu, steps, first, actions).Some?
    ensures var s := Reach(ncpu, steps, first, actions).value;
            s.control == Busy || s.control == Over(EndDone) ==>
              s.live == {} && 1 <= s.k <= |steps| && !steps[s.k - 1].parallel
  {
    RunKeeps(ncpu, steps, first, actions);
  }

  /** Steps are started in the order of the list, each at most once. */
  lemma StartedInOrder(ncpu: nat, steps: seq<Step>, first: nat, actions: seq<Action>)
    requires ncpu > 0 && Reach(ncpu, steps, first, actions).Some?
    ensures Increasing(Reach(ncpu, steps, first, actions).value.started)
  {
    RunKeeps(ncpu, steps, first, actions);
  }

  // ----- jobs left behind -----

  /** Of the steps from `first` up to before n that are not skipped, the last one is parallel. */
  predicate LastIsParallel(steps: seq<Step>, first: nat, n: nat)
    requires first > 0 && n <= |steps| + 1
  {
    n > first && if steps[n - 2].skipped then LastIsParallel(steps, first, n - 1) else steps[n - 2].parallel
  }

  /** A pass that comes to step j is over there. */
  predicate IsEnd(steps: seq<Step>, j: nat) {
    1 <= j <= |steps| && !steps[j - 1].skipped && !steps[j - 1].parallel && steps[j - 1].end
  }

  predicate NoEnd(steps: seq<Step>, first: nat, n: nat) {
    forall j :: first <= j < n ==> !IsEnd(steps, j)
  }

  /** The step after the last one that was started or skipped. */
  function Next(s: State): nat {
    if s.control == Check then s.k + 1 else s.k
  }

  /** Jobs are in the queue only if the last step started was parallel, and no end was passed. */
  predicate Queued(steps: seq<Step>, first: nat, s: State)
    requires first > 0
  {
    first <= s.k &&
    if Next(s) <= |steps| + 1 then
      && NoEnd(steps, first, Next(s))
      && (s.jobs != [] && s.control in {Top, Check, Over(NoMoreSteps)} ==> LastIsParallel(steps, first, Next(s)))
    else s.k == first && s.jobs == []
  }

  lemma StepQueued(ncpu: nat, steps: seq<Step>, first: nat, s: State, a: Action)
    requires ncpu > 0 && first > 0 && Invariant(ncpu, steps, s) && Queued(steps, first, s) && Apply(ncpu, steps, s, a).Some?
    ensures Queued(steps, first, Apply(ncpu, steps, s, a).value)
  {
    if a.WaitAny? {
      WithoutNothing(s.jobs, a.gone);
    }
  }

  lemma WithoutNothing(jobs: seq<nat>, gone: set<nat>)
    ensures jobs == [] ==> Without(jobs, gone) == []
  {}

  lemma {:induction false} RunQueued(ncpu: nat, steps: seq<Step>, first: nat, actions: seq<Action>)
    requires ncpu > 0 && first > 0 && Reach(ncpu, steps, first, actions).Some?
    ensures Queued(steps, first, Reach(ncpu, steps, first, actions).value)
    decreases |actions|
  {
    if actions == [] {
    } else {
      var n := |actions| - 1;
      RunQueued(ncpu, steps, first, actions[..n]);
      RunKeeps(ncpu, steps, first, actions[..n]);
      StepQueued(ncpu, steps, first, Reach(ncpu, steps, first, actions[..n]).value, actions[n]);
    }
  }

  /** The pass is over, and a job still runs. */
  predicate LeavesJob(ncpu: nat, steps: seq<Step>, first: nat, actions: seq<Action>) {
    var s := Reach(ncpu, steps, first, actions);
    s.Some? && s.value.control.Over? && s.value.live != {}
  }

  /** No job is left if the last step that is not skipped is not parallel, or an end is run alone. */
  lemma NothingLeftBehind(ncpu: nat, steps: seq<Step>, first: nat, actions: seq<Action>)
    requires ncpu > 0 && first > 0 && LeavesJob(ncpu, steps, first, actions)
    ensures LastIsParallel(steps, first, |steps| + 1) && NoEnd(steps, first, |steps| + 1)
  {
    RunKeeps(ncpu, steps, first, actions);
    RunQueued(ncpu, steps, first, actions);
    var s := Reach(ncpu, steps, first, actions).value;
    assert Elements([]) == {};
  }

  /** The run goes on with one more action. */
  lemma ReachOne(ncpu: nat, steps: seq<Step>, first: nat, actions: seq<Action>, a: Action)
    requires Reach(ncpu, steps, first, actions).Some?
    ensures Reach(ncpu, steps, first, actions + [a]) == Apply(ncpu, steps, Reach(ncpu, steps, first, actions).value, a)
  {
    assert (actions + [a])[..|actions|] == actions;
  }

  /** Before step k, with nothing running. */
  predicate Idle(ncpu: nat, steps: seq<Step>, first: nat, actions: seq<Action>, k: nat) {
    var s := Reach(ncpu, steps, first, actions);
    s.Some? && s.value.k == k && s.value.control == Top && s.value.live == {} && |s.value.jobs| <= ncpu && s.value.locked
  }

  /** A run that starts the parallel step k. */
  lemma Start(ncpu: nat, steps: seq<Step>, first: nat, before: seq<Action>, k: nat) returns (actions: seq<Action>)
    requires ncpu > 0 && Idle(ncpu, steps, first, before, k)
    requires 1 <= k <= |steps| && !steps[k - 1].skipped && steps[k - 1].parallel
    ensures var s := Reach(ncpu, steps, first, actions);
            s.Some? && s.value.k == k && s.value.control == Check && s.value.live == {k} && |s.value.jobs| <= ncpu && s.value.locked
  {
    hide Reach;
    actions := before;
    var s := Reach(ncpu, steps, first, actions).value;
    if |s.jobs| == ncpu {
      var gone := Elements(s.jobs);
      assert s.jobs[0] in gone;
      WithoutIs(s.jobs, gone);
      ReachOne(ncpu, steps, first, actions, WaitAny(gone));
      actions := actions + [WaitAny(gone)];
    }
    ReachOne(ncpu, steps, first, actions, Fork);
    actions := actions + [Fork];
  }

  /** A run from before step k to before the next one, where everything started has ended. */
  lemma OneStep(ncpu: nat, steps: seq<Step>, first: nat, before: seq<Action>, k: nat) returns (actions: seq<Action>)
    requires ncpu > 0 && Idle(ncpu, steps, first, before, k) && 1 <= k <= |steps|
    requires !IsEnd(steps, k)
    ensures Idle(ncpu, steps, first, actions, k + 1)
  {
    hide Reach;
    if steps[k - 1].skipped {
      ReachOne(ncpu, steps, first, before, Skip);
      actions := before + [Skip];
    } else if steps[k - 1].parallel {
      actions := Start(ncpu, steps, first, before, k);
      ReachOne(ncpu, steps, first, actions, Ended({k}));
      actions := actions + [Ended({k})];
      ReachOne(ncpu, steps, first, actions, Alive);
      actions := actions + [Alive];
    } else {
      actions := RunAlone(ncpu, steps, first, before, k);
    }
  }

  lemma RunAlone(ncpu: nat, steps: seq<Step>, first: nat, before: seq<Action>, k: nat) returns (actions: seq<Action>)
    requires ncpu > 0 && Idle(ncpu, steps, first, before, k) && 1 <= k <= |steps|
    requires !steps[k - 1].skipped && !steps[k - 1].parallel && !steps[k - 1].end
    ensures Idle(ncpu, steps, first, actions, k + 1)
  {
    hide Reach, Elements;
    actions := before;
    if Reach(ncpu, steps, first, actions).value.jobs != [] {
      ReachOne(ncpu, steps, first, actions, Barrier);
      actions := actions + [Barrier];
    }
    ReachOne(ncpu, steps, first, actions, Sync);
    actions := actions + [Sync];
    ReachOne(ncpu, steps, first, actions, SyncDone(0));
    actions := actions + [SyncDone(0)];
    ReachOne(ncpu, steps, first, actions, Alive);
    actions := actions + [Alive];
  }

  /** A run to before step k. */
  lemma {:induction false} RunTo(ncpu: nat, steps: seq<Step>, first: nat, k: nat) returns (actions: seq<Action>)
    requires ncpu > 0 && 1 <= first <= k <= |steps| + 1 && NoEnd(steps, first, k)
    ensures Idle(ncpu, steps, first, actions, k)
    decreases k
  {
    if k == first {
      actions := [];
    } else {
      var before := RunTo(ncpu, steps, first, k - 1);
      actions := OneStep(ncpu, steps, first, before, k - 1);
    }
  }

  /** A run to before step n, with the job started last still running. */
  lemma {:induction false} RunToWithJob(ncpu: nat, steps: seq<Step>, first: nat, n: nat) returns (actions: seq<Action>)
    requires ncpu > 0 && 0 < first && n <= |steps| + 1 && LastIsParallel(steps, first, n) && NoEnd(steps, first, n)
    ensures var s := Reach(ncpu, steps, first, actions);
            s.Some? && s.value.k == n && s.value.control == Top && s.value.live != {}
    decreases n
  {
    if steps[n - 2].skipped {
      actions := RunToWithJob(ncpu, steps, first, n - 1);
      ReachOne(ncpu, steps, first, actions, Skip);
      actions := actions + [Skip];
    } else {
      actions := RunTo(ncpu, steps, first, n - 1);
      actions := Start(ncpu, steps, first, actions, n - 1);
      ReachOne(ncpu, steps, first, actions, Alive);
      actions := actions + [Alive];
    }
  }

  /**
   A pass can be over with a job still running if and only if the last step that is
   not skipped is parallel, and no end is run on the way.
   */
  lemma JobLeftIff(ncpu: nat, steps: seq<Step>, first: nat)
    requires ncpu > 0 && first > 0
    ensures (exists actions :: LeavesJob(ncpu, steps, first, actions)) <==>
            LastIsParallel(steps, first, |steps| + 1) && NoEnd(steps, first, |steps| + 1)
  {
    if actions :| LeavesJob(ncpu, steps, first, actions) {
      NothingLeftBehind(ncpu, steps, first, actions);
    }
    if LastIsParallel(steps, first, |steps| + 1) && NoEnd(steps, first, |steps| + 1) {
      var actions := RunToWithJob(ncpu, steps, first, |steps| + 1);
      ReachOne(ncpu, steps, first, actions, OutOfSteps);
      assert LeavesJob(ncpu, steps, first, actions + [OutOfSteps]);
    }
  }

  /**
   So where an end is the last step and there is no other, a job can be left if and
   only if the end is skipped and the last step before it that is not is parallel.
   */
  lemma SkippedEndLeavesJob(ncpu: nat, steps: seq<Step>, first: nat)
    requires ncpu > 0 && 1 <= first <= |steps| && steps[|steps| - 1].end && !steps[|steps| - 1].parallel
    requires forall i :: 0 <= i < |steps| - 1 ==> !steps[i].end
    ensures (exists actions :: LeavesJob(ncpu, steps, first, actions)) <==>
            steps[|steps| - 1].skipped && LastIsParallel(steps, first, |steps|)
  {
    JobLeftIff(ncpu, steps, first);
    if steps[|steps| - 1].skipped {
      assert NoEnd(steps, first, |steps| + 1);
    } else {
      assert IsEnd(steps, |steps|);
    }
  }

  // ----- decisions -----

  /** The shell acts, not a job or a kill. */
  predicate Acts(a: Action) {
    !a.Ended? && !a.Kill?
  }

  /**
   What the shell does next is decided: it skips what is skipped, waits for a job only
   if there are as many as processors and for all of them before a step that is not
   parallel, and goes on behind a step exactly if no kill has come.
   */
  lemma WhatIsNext(ncpu: nat, steps: seq<Step>, first: nat, actions: seq<Action>, a: Action)
    requires ncpu > 0 && Reach(ncpu, steps, first, actions).Some? && Acts(a)
    requires Apply(ncpu, steps, Reach(ncpu, steps, first, actions).value, a).Some?
    ensures var s := Reach(ncpu, steps, first, actions).value;
            match s.control
            case Top =>
              if s.k > |steps| then a == OutOfSteps
              else
                && s.k > 0
                && var step := steps[s.k - 1];
                   if step.skipped then a == Skip
                   else if step.parallel then if |s.jobs| == ncpu then a.WaitAny? else a == Fork
                   else if s.jobs != [] then a == Barrier
                   else if step.end then a == RunEnd else a == Sync
            case Busy => a.SyncDone?
            case Check => a == if s.locked then Alive else KillSeen
            case Over(_) => false
  {}

  lemma SomeJobs(jobs: seq<nat>)
    requires jobs != []
    ensures Elements(jobs) != {}
  {
    assert jobs[0] in Elements(jobs);
  }

  /** Once the jobs have ended, the shell is never stuck. */
  lemma NeverStuck(ncpu: nat, steps: seq<Step>, first: nat, actions: seq<Action>) returns (a: Action)
    requires ncpu > 0 && first > 0 && Reach(ncpu, steps, first, actions).Some?
    requires var s := Reach(ncpu, steps, first, actions).value; !s.control.Over? && s.live == {}
    ensures Acts(a) && Apply(ncpu, steps, Reach(ncpu, steps, first, actions).value, a).Some?
  {
    RunKeeps(ncpu, steps, first, actions);
    RunQueued(ncpu, steps, first, actions);
    var s := Reach(ncpu, steps, first, actions).value;
    match s.control
    case Top =>
      if s.k > |steps| {
        a := OutOfSteps;
      } else if steps[s.k - 1].skipped {
        a := Skip;
      } else if steps[s.k - 1].parallel {
        if |s.jobs| == ncpu {
          SomeJobs(s.jobs);
          a := WaitAny(Elements(s.jobs));
        } else {
          a := Fork;
        }
      } else {
        a := if s.jobs != [] then Barrier else if steps[s.k - 1].end then RunEnd else Sync;
      }
    case Busy => a := SyncDone(0);
    case Check => a := if s.locked then Alive else KillSeen;
    case Over(_) => assert false;
  }

  /** The steps that were started after a kill: at most the one that the shell had come to. */
  lemma {:induction false} KillStops(ncpu: nat, steps: seq<Step>, first: nat, before: seq<Action>, after: seq<Action>)
    requires ncpu > 0 && Reach(ncpu, steps, first, before).Some? && !Reach(ncpu, steps, first, before).value.locked
    requires Reach(ncpu, steps, first, before + after).Some?
    ensures var s, t := Reach(ncpu, steps, first, before).value, Reach(ncpu, steps, first, before + after).value;
            && !t.locked && |t.started| <= |s.started| + (if s.control == Top then 1 else 0)
            && (t.control == Top ==> t.started == s.started && s.control == Top)
    decreases |after|
  {
    if after == [] {
      assert before + after == before;
    } else {
      var n := |after| - 1;
      assert (before + after)[..|before + after| - 1] == before + after[..n];
      KillStops(ncpu, steps, first, before, after[..n]);
    }
  }

  /**
   As many parallel steps as there are processors run at the same time: nothing but
   their number makes the shell wait.
   */
  lemma {:induction false} AllProcessors(ncpu: nat, steps: seq<Step>, first: nat, p: nat) returns (actions: seq<Action>)
    requires 0 < ncpu && p <= ncpu && 0 < first && first + p <= |steps| + 1
    requires forall i :: first - 1 <= i < first - 1 + p ==> steps[i].parallel && !steps[i].skipped
    ensures Reach(ncpu, steps, first, actions).Some?
    ensures var s := Reach(ncpu, steps, first, actions).value;
            && s.control == Top && s.k == first + p && s.locked && |s.jobs| == p && |s.live| == p
            && forall i :: i in s.live <==> first <= i < first + p
  {
    if p == 0 {
      actions := [];
    } else {
      actions := AllProcessors(ncpu, steps, first, p - 1);
      ReachOne(ncpu, steps, first, actions, Fork);
      ReachOne(ncpu, steps, first, actions + [Fork], Alive);
      actions := actions + [Fork] + [Alive];
    }
  }
}
