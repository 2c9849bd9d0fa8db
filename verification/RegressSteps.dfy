/** conf-robsd-regress.c: the list of steps, with the regress suites in the middle. */
module RegressSteps {
  import opened Wrappers

  datatype ConfigStep = ConfigStep(name: string, parallel: bool)

  /** The suites with the given answer to `parallel`, in their order. */
  function Suites(regress: seq<string>, isParallel: string -> bool, parallel: bool): seq<ConfigStep> {
    if regress == [] then []
    else
      var rest := Suites(regress[..|regress| - 1], isParallel, parallel);
      var last := regress[|regress| - 1];
      if isParallel(last) == parallel then rest + [ConfigStep(last, parallel)] else rest
  }

  /** Fixed steps; None marks the place of the suites. */
  function Fixed(script: seq<Option<string>>): seq<ConfigStep>
    requires forall i :: 0 <= i < |script| ==> script[i].Some?
  {
    seq(|script|, i requires 0 <= i < |script| => ConfigStep(script[i].value, false))
  }

  /** One place for the suites. */
  predicate OneHole(script: seq<Option<string>>, hole: nat) {
    hole < |script| && forall i :: 0 <= i < |script| ==> (script[i].None? <==> i == hole)
  }

  function Steps(script: seq<Option<string>>, hole: nat, regress: seq<string>, isParallel: string -> bool): seq<ConfigStep>
    requires OneHole(script, hole)
  {
    Fixed(script[..hole]) + (Suites(regress, isParallel, true) + Suites(regress, isParallel, false)) + Fixed(script[hole + 1..])
  }

  /** Suites that are not parallel. */
  function Plain(names: seq<string>): seq<ConfigStep> {
    seq(|names|, i requires 0 <= i < |names| => ConfigStep(names[i], false))
  }

  lemma FixedMore(script: seq<Option<string>>, lo: nat, i: nat)
    requires lo <= i < |script| && forall k :: lo <= k <= i ==> script[k].Some?
    ensures Fixed(script[lo..i + 1]) == Fixed(script[lo..i]) + [ConfigStep(script[i].value, false)]
  {
    assert script[lo..i + 1] == script[lo..i] + [script[i]];
  }

  lemma FixedNone(script: seq<Option<string>>, lo: nat)
    requires lo <= |script|
    ensures Fixed(script[lo..lo]) == []
  {}

  lemma SuitesMore(regress: seq<string>, isParallel: string -> bool, parallel: bool, r: nat)
    requires r < |regress|
    ensures Suites(regress[..r + 1], isParallel, parallel) ==
            Suites(regress[..r], isParallel, parallel)
            + if isParallel(regress[r]) == parallel then [ConfigStep(regress[r], parallel)] else []
  {
    assert regress[..r + 1][..r] == regress[..r];
  }

  lemma PlainMore(names: seq<string>, name: string)
    ensures Plain(names + [name]) == Plain(names) + [ConfigStep(name, false)]
  {}

  /** Appends the fixed steps from index lo up to the hole or the end. */
  method AddFixed(script: seq<Option<string>>, steps0: seq<ConfigStep>, lo: nat) returns (steps: seq<ConfigStep>, i: nat)
    requires lo <= |script|
    ensures lo <= i <= |script| && (forall k :: lo <= k < i ==> script[k].Some?) && (i < |script| ==> script[i].None?)
    ensures steps == steps0 + Fixed(script[lo..i])
  {
    hide Fixed;
    steps, i := steps0, lo;
    FixedNone(script, lo);
    while i < |script|
      invariant lo <= i <= |script| && (forall k :: lo <= k < i ==> script[k].Some?)
      invariant steps == steps0 + Fixed(script[lo..i])
    {
      if script[i].None? {
        break;
      }
      FixedMore(script, lo, i);
      steps := steps + [ConfigStep(script[i].value, false)];
      i := i + 1;
    }
  }

  /** Appends the parallel suites, and then the others, which were put aside. */
  method AddSuites(regress: seq<string>, isParallel: string -> bool, steps0: seq<ConfigStep>) returns (steps: seq<ConfigStep>)
    ensures steps == steps0 + (Suites(regress, isParallel, true) + Suites(regress, isParallel, false))
  {
    steps := steps0;
    var noParallel: seq<string> := [];
    for r := 0 to |regress|
      invariant steps == steps0 + Suites(regress[..r], isParallel, true)
      invariant Plain(noParallel) == Suites(regress[..r], isParallel, false)
    {
      SuitesMore(regress, isParallel, true, r);
      SuitesMore(regress, isParallel, false, r);
      if isParallel(regress[r]) {
        steps := steps + [ConfigStep(regress[r], true)];
      } else {
        PlainMore(noParallel, regress[r]);
        noParallel := noParallel + [regress[r]];
      }
    }
    assert regress[..|regress|] == regress;
    ghost var before := steps;
    for r := 0 to |noParallel|
      invariant steps == before + Plain(noParallel)[..r]
    {
      steps := steps + [ConfigStep(noParallel[r], false)];
    }
    assert Plain(noParallel)[..|noParallel|] == Plain(noParallel);
  }

  method GetSteps(script: seq<Option<string>>, ghost hole: nat, regress: seq<string>, isParallel: string -> bool)
    returns (steps: seq<ConfigStep>)
    requires OneHole(script, hole)
    ensures steps == Steps(script, hole, regress, isParallel)
  {
    var i;
    steps, i := AddFixed(script, [], 0);
    assert script[hole].None?;
    assert i == hole && script[0..hole] == script[..hole];
    steps := AddSuites(regress, isParallel, steps);
    steps, i := AddFixed(script, steps, i + 1);
    assert i == |script| && script[hole + 1..i] == script[hole + 1..];
  }

  function Names(steps: seq<ConfigStep>): seq<string> {
    seq(|steps|, i requires 0 <= i < |steps| => steps[i].name)
  }

  lemma NamesConcat(a: seq<ConfigStep>, b: seq<ConfigStep>)
    ensures Names(a + b) == Names(a) + Names(b)
  {}

  /** Every suite is there as often as it was configured, parallel or not. */
  lemma {:induction false} NoSuiteLost(regress: seq<string>, isParallel: string -> bool)
    ensures multiset(Names(Suites(regress, isParallel, true) + Suites(regress, isParallel, false))) == multiset(regress)
  {
    if regress == [] {
    } else {
      var n := |regress| - 1;
      NoSuiteLost(regress[..n], isParallel);
      assert regress == regress[..n] + [regress[n]];
      var p, q := Suites(regress[..n], isParallel, true), Suites(regress[..n], isParallel, false);
      var step := ConfigStep(regress[n], isParallel(regress[n]));
      NamesConcat(p, q);
      NamesConcat(p, [step]);
      NamesConcat(q, [step]);
      NamesConcat(p + [step], q);
      NamesConcat(p, q + [step]);
      assert Names([step]) == [regress[n]];
    }
  }

  lemma {:induction false} SuitesAre(regress: seq<string>, isParallel: string -> bool, parallel: bool)
    ensures forall s :: s in Suites(regress, isParallel, parallel) ==> s.parallel == parallel && isParallel(s.name) == parallel
  {
    if regress == [] {
    } else {
      SuitesAre(regress[..|regress| - 1], isParallel, parallel);
    }
  }

  /** All parallel steps stand together, directly before the suites that are not parallel. */
  lemma ParallelTogether(script: seq<Option<string>>, hole: nat, regress: seq<string>, isParallel: string -> bool, i: nat)
    requires OneHole(script, hole) && i < |Steps(script, hole, regress, isParallel)|
    ensures Steps(script, hole, regress, isParallel)[i].parallel <==>
            hole <= i < hole + |Suites(regress, isParallel, true)|
  {
    SuitesAre(regress, isParallel, true);
    SuitesAre(regress, isParallel, false);
    var p, q := Suites(regress, isParallel, true), Suites(regress, isParallel, false);
    assert forall j :: 0 <= j < |p| ==> p[j] in p;
    assert forall j :: 0 <= j < |q| ==> q[j] in q;
  }

  /** The suites of a kind stand in the order in which they are configured. */
  lemma {:induction false} SuitesTwo(a: seq<string>, b: seq<string>, isParallel: string -> bool, parallel: bool)
    ensures Suites(a + b, isParallel, parallel) == Suites(a, isParallel, parallel) + Suites(b, isParallel, parallel)
    ensures |b| == 1 ==> Suites(b, isParallel, parallel) == if isParallel(b[0]) == parallel then [ConfigStep(b[0], parallel)] else []
  {
    if b == [] {
      assert a + b == a;
    } else {
      var n := |b| - 1;
      SuitesTwo(a, b[..n], isParallel, parallel);
      assert (a + b)[..|a| + n] == a + b[..n];
    }
  }

  /** The fixed steps before the suites stand at their places, and those behind them at their places from the end. */
  lemma FixedInPlace(script: seq<Option<string>>, hole: nat, regress: seq<string>, isParallel: string -> bool, i: nat)
    requires OneHole(script, hole) && i < |script| && i != hole
    ensures var steps := Steps(script, hole, regress, isParallel);
            && |steps| == |script| - 1 + |regress|
            && steps[if i < hole then i else |steps| - |script| + i] == ConfigStep(script[i].value, false)
  {
    NoSuiteLost(regress, isParallel);
    var p, q := Suites(regress, isParallel, true), Suites(regress, isParallel, false);
    assert |Names(p + q)| == |multiset(Names(p + q))| == |multiset(regress)|;
    assert i > hole ==> script[hole + 1..][i - hole - 1] == script[i];
  }
}
