/** What the step loop leaves at its end: the total that it records, and the file of a build in which nothing goes wrong. */
module RunnerEnd {
  import opened Wrappers
  import opened Text
  import opened Runner
  import opened RunnerSafety

  // ----- the total -----

  /** The durations recorded for steps 1 to n, those of skipped steps left out. */
  function Spent(file: File, n: nat): int {
    if n == 0 then 0
    else
      Spent(file, n - 1) +
      match Get(file, n)
      case None => 0
      case Some(r) => if r.skip then 0 else r.duration
  }

  predicate Within(file: File, n: nat) {
    forall i :: 0 <= i < |file| ==> 1 <= file[i].id <= n
  }

  lemma {:induction false} TotalSnoc(file: File, r: Row)
    ensures DurationTotal(file + [r]) == DurationTotal(file) + if r.skip || r.name == END then 0 else r.duration
  {
    if file == [] {
      assert [] + [r] == [r] && [r][1..] == [];
    } else {
      assert (file + [r])[1..] == file[1..] + [r];
      TotalSnoc(file[1..], r);
    }
  }

  lemma {:induction false} SpentLess(file: File, n: nat, k: nat)
    requires Ascending(file) && file != [] && k < file[|file| - 1].id
    ensures Spent(file, k) == Spent(file[..|file| - 1], k)
  {
    if k == 0 {
    } else {
      SpentLess(file, n, k - 1);
      GetLast(file, k);
    }
  }

  /** Rows whose ids are not above n, and of which none is the end, add up to what steps 1 to n have taken. */
  lemma {:induction false} TotalIs(file: File, n: nat)
    requires Ascending(file) && Within(file, n) && forall i :: 0 <= i < |file| ==> file[i].name != END || file[i].skip
    ensures DurationTotal(file) == Spent(file, n)
    decreases n
  {
    hide DurationTotal, Get;
    if n == 0 {
      assert file == [];
      TotalNothing();
    } else if file != [] && file[|file| - 1].id == n {
      var m := |file| - 1;
      assert Within(file[..m], n - 1);
      TotalIs(file[..m], n - 1);
      assert file == file[..m] + [file[m]];
      TotalSnoc(file[..m], file[m]);
      SpentLess(file, n, n - 1);
      GetAt(file, m);
    } else {
      assert forall i :: 0 <= i < |file| ==> file[i].id <= file[|file| - 1].id;
      TotalIs(file, n - 1);
      if Get(file, n).Some? {
        var i := GetFound(file, n);
      }
    }
  }

  lemma TotalNothing()
    ensures DurationTotal([]) == 0
  {}

  lemma FileWithin(names: seq<string>, file: File)
    requires StepList(names) && FileOk(names, file)
    ensures Within(file, |names|)
    ensures forall i :: 0 <= i < |file| && file[i].id < |names| ==> file[i].name != END || file[i].skip
    ensures Get(file, |names|).Some? ==> file != [] && file[|file| - 1] == Get(file, |names|).value
  {
    forall i | 0 <= i < |file| ensures RowOk(names, file[i].id, file[i]) {
      GetAt(file, i);
    }
    if Get(file, |names|).Some? {
      var i := GetFound(file, |names|);
      assert i < |file| - 1 ==> file[i].id < file[|file| - 1].id;
    }
  }

  /** Where the end is running, the total is that of the other steps. */
  lemma TotalWithEnd(names: seq<string>, file: File)
    requires StepList(names) && FileOk(names, file) && Get(file, |names|) == Some(Row(|names|, END, -1, -1, false))
    ensures DurationTotal(file) == Spent(file, |names| - 1)
  {
    FileWithin(names, file);
    var n, m := |names|, |file| - 1;
    var rest := file[..m];
    assert file == rest + [file[m]];
    assert Within(rest, n - 1) by {
      assert forall i :: 0 <= i < m ==> file[i].id < file[m].id;
    }
    TotalSnoc(rest, file[m]);
    TotalIs(rest, n - 1);
    SpentLess(file, n, n - 1);
  }

  lemma EndDoneIs(names: seq<string>, s: State)
    requires Apply(names, s, EndDone).Some?
    ensures s.phase.Ending? && Apply(names, s, EndDone).value.file == Put(s.file, Row(s.phase.k, END, 0, DurationTotal(s.file), false))
  {}

  /** While the end is being written, its row is there, and not skipped. */
  lemma {:induction false} EndRow(names: seq<string>, actions: seq<Action>)
    requires StepList(names) && Reach(names, actions).Some? && Reach(names, actions).value.phase.Ending?
    ensures Get(Reach(names, actions).value.file, |names|) == Some(Row(|names|, END, -1, -1, false))
    decreases |actions|
  {
    var n := |actions| - 1;
    RunKeeps(names, actions[..n]);
    var s := Reach(names, actions[..n]).value;
    ToEnding(names, s, actions[n]);
    if s.phase.Ending? {
      EndRow(names, actions[..n]);
    }
  }

  lemma EndIsLast(names: seq<string>, k: nat)
    requires StepList(names) && 1 <= k <= |names| && names[k - 1] == END
    ensures k == |names|
  {}

  lemma ReadyAscending(names: seq<string>, file: File, k: nat)
    requires Ready(names, file, k)
    ensures Ascending(file)
  {}

  /** The end is begun by an action that writes its row, or it was begun before. */
  lemma ToEnding(names: seq<string>, s: State, a: Action)
    requires StepList(names) && Invariant(names, s) && Apply(names, s, a).Some? && Apply(names, s, a).value.phase.Ending?
    ensures if s.phase.Ending? then Apply(names, s, a).value.file == s.file
            else Get(Apply(names, s, a).value.file, |names|) == Some(Row(|names|, END, -1, -1, false))
  {
    hide Put, Get, DurationTotal, StepNext, DurationRetry, FirstNamed, StepList;
    if a.EndStart? {
      EndIsLast(names, s.phase.k);
      assert s.phase.k == |names|;
      ReadyAscending(names, s.file, s.phase.k);
      GetPut(s.file, Row(s.phase.k, END, -1, -1, false), |names|);
    }
  }

  lemma {:induction false} SpentPut(file: File, r: Row, k: nat)
    requires Ascending(file) && k < r.id
    ensures Spent(Put(file, r), k) == Spent(file, k)
  {
    if k == 0 {
    } else {
      SpentPut(file, r, k - 1);
      GetPut(file, r, k);
    }
  }

  /**
   The duration recorded for the end is the sum of what is recorded for all other
   steps, without those that are skipped; an end of before is not counted in.
   */
  lemma EndRecordsTotal(names: seq<string>, actions: seq<Action>)
    requires StepList(names) && Reach(names, actions + [EndDone]).Some?
    ensures var file := Reach(names, actions + [EndDone]).value.file;
            Get(file, |names|) == Some(Row(|names|, "end", 0, Spent(file, |names| - 1), false))
  {
    assert (actions + [EndDone])[..|actions|] == actions;
    RunKeeps(names, actions);
    ReachOne(names, actions, EndDone);
    var s := Reach(names, actions).value;
    EndDoneIs(names, s);
    EndRow(names, actions);
    EndPut(names, s.file);
  }

  lemma EndPut(names: seq<string>, file: File)
    requires StepList(names) && FileOk(names, file) && Get(file, |names|) == Some(Row(|names|, END, -1, -1, false))
    ensures var file2 := Put(file, Row(|names|, END, 0, DurationTotal(file), false));
            Get(file2, |names|) == Some(Row(|names|, "end", 0, Spent(file2, |names| - 1), false))
  {
    hide DurationTotal, Put, Get, Spent, StepList;
    var n, r := |names|, Row(|names|, END, 0, DurationTotal(file), false);
    GetPut(file, r, n);
    TotalWithEnd(names, file);
    SpentPut(file, r, n - 1);
  }

  // ----- a build in which nothing goes wrong -----

  /** Each step runs once, succeeds, and takes its time. */
  function CleanActions(ts: seq<nat>): seq<Action> {
    if ts == [] then [] else CleanActions(ts[..|ts| - 1]) + [Launch, Finish(0, ts[|ts| - 1]), Continue]
  }

  function CleanFile(names: seq<string>, ts: seq<nat>): (file: File)
    requires |ts| <= |names|
    ensures |file| == |ts|
    ensures forall i :: 0 <= i < |ts| ==> file[i] == Row(i + 1, names[i], 0, ts[i], false)
  {
    seq(|ts|, i requires 0 <= i < |ts| => Row(i + 1, names[i], 0, ts[i], false))
  }

  lemma {:induction false} PutLast(file: File, r: Row)
    requires forall i :: 0 <= i < |file| ==> file[i].id < r.id
    ensures Put(file, r) == file + [r]
  {
    if file == [] {
    } else {
      PutLast(file[1..], r);
      assert file == [file[0]] + file[1..];
    }
  }

  lemma {:induction false} PutAgain(file: File, r: Row, r2: Row)
    requires (forall i :: 0 <= i < |file| ==> file[i].id < r.id) && r2.id == r.id
    ensures Put(file + [r], r2) == file + [r2]
  {
    if file == [] {
      assert ([] + [r])[1..] == [];
    } else {
      assert (file + [r])[1..] == file[1..] + [r];
      PutAgain(file[1..], r, r2);
      assert file == [file[0]] + file[1..];
    }
  }

  lemma {:induction false} NothingSkipped(file: File, name: string)
    requires forall i :: 0 <= i < |file| ==> !file[i].skip
    ensures !StepSkip(file, name)
  {
    if file == [] {
    } else {
      NothingSkipped(file[1..], name);
    }
  }

  /** One more step that runs well. */
  lemma CleanStep(names: seq<string>, actions: seq<Action>, s: State, ts: seq<nat>, t: nat)
    requires StepList(names) && |ts| + 1 < |names| && Reach(names, actions) == Some(s)
    requires s == State(CleanFile(names, ts), Select(|ts| + 1, 0), true, s.reboots) && (s.reboots ==> names[|ts|] != "reboot")
    ensures Reach(names, actions + [Launch, Finish(0, t), Continue]) ==
            Some(State(CleanFile(names, ts + [t]), Select(|ts| + 2, 0), true, s.reboots))
  {
    hide Reach, Put, FirstNamed, Ascending, CleanFile, DurationTotal, StepNext;
    var k, name := |ts| + 1, names[|ts|];
    var file2 := CleanFile(names, ts + [t]);
    NothingSkipped(s.file, name);
    PutLast(s.file, Row(k, name, -1, -1, false));
    PutAgain(s.file, Row(k, name, -1, -1, false), Row(k, name, 0, t, false));
    assert file2 == s.file + [Row(k, name, 0, t, false)];
    assert DurationRetry(s.file, k, name) == 0;
    var s1 := s.(file := s.file + [Row(k, name, -1, -1, false)], phase := Running(k, 0, 0));
    var s2 := s.(file := file2, phase := Done(k, 0, t));
    ReachThree(names, actions, Launch, Finish(0, t), Continue, s1, s2, s2.(phase := Select(k + 1, 0)));
  }

  lemma CleanStart(names: seq<string>, reboots: bool)
    requires StepList(names)
    ensures Reach(names, [Start(reboots), SkipDone]) == Some(State([], Select(1, 0), true, reboots))
  {
    assert [Start(reboots), SkipDone] == [] + [Start(reboots)] + [SkipDone];
    ReachOne(names, [], Start(reboots));
    ReachOne(names, [] + [Start(reboots)], SkipDone);
  }

  lemma {:induction false} CleanSteps(names: seq<string>, reboots: bool, ts: seq<nat>)
    requires StepList(names) && |ts| < |names| && (reboots ==> "reboot" !in names)
    ensures Reach(names, [Start(reboots), SkipDone] + CleanActions(ts)) ==
            Some(State(CleanFile(names, ts), Select(|ts| + 1, 0), true, reboots))
  {
    hide Reach, CleanFile;
    var first := [Start(reboots), SkipDone];
    if ts == [] {
      CleanStart(names, reboots);
      assert first + CleanActions(ts) == first;
      assert CleanFile(names, ts) == [];
    } else {
      var n := |ts| - 1;
      CleanSteps(names, reboots, ts[..n]);
      CleanStep(names, first + CleanActions(ts[..n]), Reach(names, first + CleanActions(ts[..n])).value, ts[..n], ts[n]);
      assert ts == ts[..n] + [ts[n]];
      assert first + CleanActions(ts) == (first + CleanActions(ts[..n])) + [Launch, Finish(0, ts[n]), Continue];
    }
  }

  /**
   A build in which every step succeeds and none is killed runs all of them, in order and once,
   records the time of each, and ends with their sum; unless it is to reboot.
   */
  lemma CleanBuild(names: seq<string>, reboots: bool, ts: seq<nat>)
    requires StepList(names) && |ts| == |names| - 1 && (reboots ==> "reboot" !in names)
    ensures var actions := [Start(reboots), SkipDone] + CleanActions(ts) + [EndStart, EndDone];
            && Reach(names, actions).Some?
            && Reach(names, actions).value.phase == Idle
            && Reach(names, actions).value.file == CleanFile(names, ts) + [Row(|names|, "end", 0, Sum(ts), false)]
  {
    hide *;
    var before, n := [Start(reboots), SkipDone] + CleanActions(ts), |names|;
    var s := State(CleanFile(names, ts), Select(n, 0), true, reboots);
    var s2 := s.(file := s.file + [Row(n, END, -1, -1, false)], phase := Ending(n));
    CleanSteps(names, reboots, ts);
    CleanEndStart(names, s, ts);
    CleanEndDone(names, s2, ts);
    ReachOne(names, before, EndStart);
    ReachOne(names, before + [EndStart], EndDone);
    assert before + [EndStart, EndDone] == before + [EndStart] + [EndDone];
  }

  lemma CleanEndStart(names: seq<string>, s: State, ts: seq<nat>)
    requires StepList(names) && |ts| == |names| - 1 && s.file == CleanFile(names, ts) && s.phase == Select(|names|, 0)
    ensures Apply(names, s, EndStart) == Some(s.(file := s.file + [Row(|names|, END, -1, -1, false)], phase := Ending(|names|)))
  {
    hide DurationTotal, CleanFile;
    NothingSkipped(s.file, END);
    PutLast(s.file, Row(|names|, END, -1, -1, false));
  }

  lemma CleanEndDone(names: seq<string>, s: State, ts: seq<nat>)
    requires StepList(names) && |ts| == |names| - 1 && s.phase == Ending(|names|)
    requires s.file == CleanFile(names, ts) + [Row(|names|, END, -1, -1, false)]
    ensures Apply(names, s, EndDone) ==
            Some(s.(file := CleanFile(names, ts) + [Row(|names|, "end", 0, Sum(ts), false)], phase := Idle))
  {
    hide DurationTotal, Put, CleanFile, Sum, StepNext, FirstNamed, DurationRetry, StepList;
    var file, n := CleanFile(names, ts), |names|;
    TotalSnoc(file, Row(n, END, -1, -1, false));
    CleanTotal(names, ts);
    PutAgain(file, Row(n, END, -1, -1, false), Row(n, END, 0, Sum(ts), false));
  }

  lemma {:induction false} CleanTotal(names: seq<string>, ts: seq<nat>)
    requires StepList(names) && |ts| < |names|
    ensures DurationTotal(CleanFile(names, ts)) == Sum(ts)
  {
    if ts == [] {
    } else {
      var n := |ts| - 1;
      CleanTotal(names, ts[..n]);
      assert CleanFile(names, ts) == CleanFile(names, ts[..n]) + [Row(n + 1, names[n], 0, ts[n], false)];
      TotalSnoc(CleanFile(names, ts[..n]), Row(n + 1, names[n], 0, ts[n], false));
    }
  }
}
