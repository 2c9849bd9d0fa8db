/**
 The loop over steps in util.sh with parallel jobs, and robsd-wait.c. When jobs end
 and when a kill comes is given in advance, as a list of turns; a step takes one turn
 and a wait as many as it needs, and if there are none left it never returns.
 */
module ParallelCode {
  import opened Wrappers
  import opened Parallel

  datatype Turn = Turn(ended: set<nat>, killed: bool)

  datatype Exit = Returned(code: nat) | Stuck

  class Machine {
    const ncpu: nat
    const steps: seq<Step>
    const first: nat
    var jobs: seq<nat>
    var live: set<nat>
    var turns: seq<Turn>
    var locked: bool
    ghost var k: nat
    ghost var started: seq<nat>
    ghost var control: Control
    ghost var actions: seq<Action>

    ghost predicate Valid()
      reads this
    {
      Reach(ncpu, steps, first, actions) == Some(Now())
    }

    ghost function Now(): State
      reads this
    {
      State(k, jobs, live, started, control, locked)
    }

    constructor (ncpu: nat, steps: seq<Step>, first: nat, turns: seq<Turn>)
      ensures Valid() && this.ncpu == ncpu && this.steps == steps && this.first == first
      ensures jobs == [] && live == {} && k == first && control == Top && actions == [] && locked
    {
      this.ncpu, this.steps, this.first, this.turns := ncpu, steps, first, turns;
      jobs, live, locked := [], {}, true;
      k, started, control, actions := first, [], Top, [];
    }

    lemma ReachOne(a: Action)
      requires Reach(ncpu, steps, first, actions).Some?
      ensures Reach(ncpu, steps, first, actions + [a]) == Apply(ncpu, steps, Reach(ncpu, steps, first, actions).value, a)
    {
      Parallel.ReachOne(ncpu, steps, first, actions, a);
    }

    /** A decision of the shell. */
    ghost method Do(a: Action, k: nat, started: seq<nat>, control: Control)
      requires Valid()
      requires Apply(ncpu, steps, Now(), a) == Some(State(k, jobs, live, started, control, locked))
      modifies `k, `started, `control, `actions
      ensures Valid() && this.k == k && this.started == started && this.control == control && actions == old(actions) + [a]
    {
      ReachOne(a);
      this.k, this.started, this.control, actions := k, started, control, actions + [a];
    }

    /** Time passes, and some jobs end. */
    method Pass() returns (ok: bool)
      requires Valid()
      modifies `live, `turns, `locked, `actions
      ensures Valid() && live <= old(live) && |turns| <= |old(turns)| && (locked ==> old(locked))
      ensures ok ==> |turns| < |old(turns)|
    {
      if turns == [] {
        return false;
      }
      var t := turns[0];
      ReachOne(Ended(t.ended));
      live, turns, actions := live - t.ended, turns[1..], actions + [Ended(t.ended)];
      if t.killed {
        ReachOne(Kill);
        locked, actions := false, actions + [Kill];
      }
      return true;
    }

    /** Waits until at least one of the processes has ended, and reports those that have. */
    method KEvent(pids: seq<nat>) returns (ok: bool, events: seq<nat>)
      requires Valid()
      modifies `live, `turns, `locked, `actions
      ensures Valid() && live <= old(live) && |turns| <= |old(turns)| && (locked ==> old(locked))
      ensures ok ==> events != [] && forall i :: 0 <= i < |events| ==> events[i] in pids && events[i] !in live
    {
      while true
        invariant Valid() && live <= old(live) && |turns| <= |old(turns)| && (locked ==> old(locked))
        decreases |turns|
      {
        WithoutIs(pids, live);
        events := Without(pids, live);
        if events != [] {
          forall i | 0 <= i < |events| ensures events[i] in pids && events[i] !in live {
            assert events[i] in Elements(events);
          }
          return true, events;
        }
        ok := Pass();
        if !ok {
          return;
        }
      }
    }

    /** robsd-wait: waits for one of the processes, or with -a for all, and returns those not known to have ended. */
    method RobsdWait(all: bool, pids: seq<nat>) returns (ok: bool, rest: seq<nat>, ghost gone: set<nat>)
      requires Valid()
      modifies `live, `turns, `locked, `actions
      ensures Valid() && live <= old(live) && |turns| <= |old(turns)| && (locked ==> old(locked))
      ensures ok ==> rest == Without(pids, gone) && gone != {} && gone <= Elements(pids) - live
      ensures ok && all ==> rest == []
    {
      rest, gone := pids, {};
      WithoutNone(pids);
      var events;
      ok, events := KEvent(pids);
      if !ok {
        return;
      }
      rest := HandleEvents(pids, events);
      gone := Elements(events);
      while all && rest != []
        invariant Valid() && live <= old(live) && |turns| <= |old(turns)| && (locked ==> old(locked))
        invariant rest == Without(pids, gone) && gone != {} && gone <= Elements(pids) - live
        decreases |rest|
      {
        WithoutIs(pids, gone);
        ok, events := KEvent(rest);
        if !ok {
          return;
        }
        assert Elements(events) <= Elements(rest) - live;
        WithoutTwice(pids, gone, Elements(events));
        rest := HandleEvents(rest, events);
        gone := gone + Elements(events);
      }
      return;
    }

    /** Removes the processes that the events are about, and no others. */
    method HandleEvents(pids: seq<nat>, events: seq<nat>) returns (rest: seq<nat>)
      requires events != [] && forall i :: 0 <= i < |events| ==> events[i] in pids
      ensures rest == Without(pids, Elements(events)) && |rest| < |pids|
    {
      rest := pids;
      WithoutNone(pids);
      assert Elements(events[..0]) == {};
      for i := 0 to |events|
        invariant rest == Without(pids, Elements(events[..i]))
      {
        WithoutTwice(pids, Elements(events[..i]), {events[i]});
        ElementsSnoc(events, i);
        rest := Without(rest, {events[i]});
      }
      assert events[..|events|] == events;
      WithoutIs(pids, Elements(events));
      assert events[0] in Elements(events) * Elements(pids);
    }

    /** Waits for a job to end if the queue is full. */
    method MakeRoom() returns (ok: bool)
      requires Valid() && ncpu > 0 && At(steps, Now()) && steps[k - 1].parallel
      modifies `jobs, `live, `turns, `locked, `actions
      ensures Valid() && |turns| <= |old(turns)| && (ok ==> |jobs| < ncpu)
      ensures |old(jobs)| != ncpu ==> ok && jobs == old(jobs) && turns == old(turns) && live == old(live)
      ensures |old(jobs)| == ncpu && ok ==> |jobs| < |old(jobs)|
    {
      hide Reach, Without, Elements, Increasing;
      RunKeeps(ncpu, steps, first, actions);
      if |jobs| != ncpu {
        return true;
      }
      var rest;
      ghost var gone;
      ok, rest, gone := RobsdWait(false, jobs);
      if !ok {
        return;
      }
      WithoutIs(jobs, gone);
      assert gone * Elements(jobs) == gone;
      ReachOne(WaitAny(gone));
      jobs, actions := rest, actions + [WaitAny(gone)];
    }

    /** Starts a job in the background, after a wait for another if the queue is full. */
    method StartJob(id: nat) returns (ok: bool)
      requires Valid() && ncpu > 0 && id == k && At(steps, Now()) && steps[k - 1].parallel
      modifies `jobs, `live, `turns, `locked, `k, `started, `control, `actions
      ensures Valid() && k == old(k) && |turns| <= |old(turns)|
      ensures ok ==> control == Check && k in live && started == old(started) + [id]
      ensures !ok ==> control == Top && |old(jobs)| == ncpu
      ensures |old(jobs)| != ncpu ==> jobs == old(jobs) + [id] && live == old(live) + {id} && turns == old(turns)
    {
      hide Reach, Elements, Without;
      ok := MakeRoom();
      if ok {
        ForkJob(id);
      }
    }

    method ForkJob(id: nat)
      requires Valid() && id == k && At(steps, Now()) && steps[k - 1].parallel && |jobs| != ncpu
      modifies `jobs, `live, `started, `control, `actions
      ensures Valid() && control == Check && started == old(started) + [id]
      ensures jobs == old(jobs) + [id] && live == old(live) + {id}
    {
      hide Reach, Without, Elements;
      ReachOne(Fork);
      jobs, live := jobs + [id], live + {id};
      started, control, actions := started + [k], Check, actions + [Fork];
    }

    /** Waits for all jobs. */
    method WaitForJobs() returns (ok: bool)
      requires Valid() && At(steps, Now()) && !steps[k - 1].parallel
      modifies `jobs, `live, `turns, `locked, `actions
      ensures Valid() && |turns| <= |old(turns)| && (ok ==> jobs == [])
      ensures old(jobs) == [] ==> ok && turns == old(turns)
    {
      if jobs == [] {
        return true;
      }
      var rest;
      ghost var gone;
      ok, rest, gone := RobsdWait(true, jobs);
      if !ok {
        return;
      }
      NoneLeft(jobs, gone, live);
      ReachOne(Barrier);
      jobs, actions := [], actions + [Barrier];
    }

    /** After a step: goes on unless a kill came; then waits for all jobs. */
    method AfterStep() returns (exit: Option<Exit>)
      requires Valid() && control == Check
      modifies `live, `turns, `locked, `k, `started, `control, `actions
      ensures Valid() && |turns| <= |old(turns)| && (exit == None <==> old(locked))
      ensures exit == None ==> control == Top && k == old(k) + 1 && live == old(live) && turns == old(turns)
      ensures exit == Some(Returned(1)) || exit == Some(Stuck) || exit == None
      ensures exit == Some(Returned(1)) ==> control == Over(Killed) && Elements(jobs) !! live
    {
      if locked {
        Do(Alive, k + 1, started, Top);
        return None;
      }
      if jobs != [] {
        var ok, rest;
        ghost var gone;
        ok, rest, gone := RobsdWait(true, jobs);
        if !ok {
          return Some(Stuck);
        }
        NoneLeft(jobs, gone, live);
      }
      Do(KillSeen, k, started, Over(Killed));
      return Some(Returned(1));
    }

    /** Runs a step that is waited for; a kill can come meanwhile. */
    method RunAlone(id: nat, code: nat) returns (exit: Option<Exit>)
      requires Valid() && id == k && At(steps, Now()) && !steps[k - 1].parallel && !steps[k - 1].end && jobs == []
      modifies `live, `turns, `locked, `k, `started, `control, `actions
      ensures Valid() && |turns| <= |old(turns)| && k == old(k) && started == old(started) + [id]
      ensures exit == if code == 0 then None else Some(Returned(code))
      ensures control == if code == 0 then Check else Over(StepFailed(code))
    {
      Do(Sync, k, started + [id], Busy);
      var passed := Pass();
      Do(SyncDone(code), k, started, if code == 0 then Check else Over(StepFailed(code)));
      return if code == 0 then None else Some(Returned(code));
    }

    /** Runs a step that is not skipped, or starts it in the background. */
    method RunStep(id: nat, code: nat) returns (exit: Option<Exit>)
      requires Valid() && ncpu > 0 && id == k && At(steps, Now())
      modifies `jobs, `live, `turns, `locked, `k, `started, `control, `actions
      ensures Valid() && k == old(k)
      ensures exit == None ==> control == Check && started == old(started) + [id]
      ensures exit.Some? && exit.value.Returned? ==> control.Over? && exit.value.code == ExitCode(control.cause)
      ensures exit.Some? && exit.value.Returned? ==> control.cause == (if steps[id - 1].end then EndDone else StepFailed(code))
      ensures exit.Some? && exit.value.Returned? && control.cause.StepFailed? ==> code != 0
    {
      var ok;
      if steps[id - 1].parallel {
        ok := StartJob(id);
        if !ok {
          return Some(Stuck);
        }
        var passed := Pass();
        return None;
      }
      ok := WaitForJobs();
      if !ok {
        return Some(Stuck);
      }
      if steps[id - 1].end {
        Do(RunEnd, k, started + [id], Over(EndDone));
        return Some(Returned(0));
      }
      exit := RunAlone(id, code);
    }

    /** The steps in their order; `exits` says how the steps end that are waited for. */
    method RobsdExecSteps(exits: nat -> nat) returns (exit: Exit)
      requires Valid() && k == first > 0 && control == Top && ncpu > 0
      modifies `jobs, `live, `turns, `locked, `k, `started, `control, `actions
      ensures Valid()
      ensures exit.Returned? ==> control.Over? && exit.code == ExitCode(control.cause)
      ensures exit.Returned? && control.cause.StepFailed? ==> 1 <= k <= |steps| && exit.code == exits(k) != 0
    {
      hide Reach;
      var i := first;
      while i <= |steps|
        invariant Valid() && k == i > 0 && control == Top
        decreases |steps| + 1 - i
      {
        if steps[i - 1].skipped {
          Do(Skip, i + 1, started, Top);
          i := i + 1;
          continue;
        }
        var over := RunStep(i, exits(i));
        if over.Some? {
          return over.value;
        }
        over := AfterStep();
        if over.Some? {
          return over.value;
        }
        i := i + 1;
      }
      Do(OutOfSteps, i, started, Over(NoMoreSteps));
      return Returned(0);
    }
  }

  /** What the code returns for the cause of its end: success, 1 after a kill, or what the step returned. */
  function ExitCode(cause: Cause): nat {
    match cause
    case EndDone => 0
    case NoMoreSteps => 0
    case Killed => 1
    case StepFailed(code) => code
  }

  lemma NoneLeft(jobs: seq<nat>, gone: set<nat>, live: set<nat>)
    requires Without(jobs, gone) == [] && gone <= Elements(jobs) - live
    ensures Elements(jobs) !! live
  {
    WithoutIs(jobs, gone);
    assert Elements([]) == {};
    assert Elements(jobs) - gone == {};
    forall j | j in Elements(jobs) ensures j in gone {
      assert j !in Elements(jobs) - gone;
    }
  }

  lemma ElementsSnoc(jobs: seq<nat>, i: nat)
    requires i < |jobs|
    ensures Elements(jobs[..i + 1]) == Elements(jobs[..i]) + {jobs[i]}
  {
    assert jobs[..i + 1] == jobs[..i] + [jobs[i]];
  }

  lemma {:induction false} WithoutNone(jobs: seq<nat>)
    ensures Without(jobs, {}) == jobs
  {
    if jobs == [] {
    } else {
      WithoutNone(jobs[1..]);
    }
  }

  lemma {:induction false} WithoutTwice(jobs: seq<nat>, a: set<nat>, b: set<nat>)
    ensures Without(Without(jobs, a), b) == Without(jobs, a + b)
  {
    if jobs == [] {
    } else {
      WithoutTwice(jobs[1..], a, b);
    }
  }
}
