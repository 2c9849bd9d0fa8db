/**
 step_write of util.sh: the arguments that it gives to robsd-step -W, and that one
 call is one `Put` of the step loop's view of the file.
 */
module StepWrite {
  import opened Wrappers
  import opened Lexing
  import opened Text
  import opened Interpolation
  import opened StepRows
  import opened StepText
  import opened StepUpsert
  import Runner

  /** A field and the text for it. */
  type Pair = p: (nat, string) | p.0 < NFIELDS witness (0, "")

  function Keyval(p: Pair): string {
    NAMES[p.0] + (['='] + p.1)
  }

  function Keyvals(ps: seq<Pair>): seq<string> {
    if ps == [] then [] else [Keyval(ps[0])] + Keyvals(ps[1..])
  }

  function Assign(st: Step, ps: seq<Pair>): Option<Step>
    decreases |ps|
  {
    if ps == [] then Some(st)
    else match Stored(ps[0].0, ps[0].1) case None => None case Some(f) => Assign(st[ps[0].0 := f], ps[1..])
  }

  lemma NamesWithoutEquals()
    ensures forall j :: 0 <= j < NFIELDS ==> '=' !in NAMES[j]
  {}

  lemma KeyvalSets(st: Step, p: Pair)
    ensures SetKeyval(st, Keyval(p)) == match Stored(p.0, p.1) case None => None case Some(f) => Some(st[p.0 := f])
    ensures FindChar(Keyval(p), '=') == |NAMES[p.0]| < |Keyval(p)|
    ensures Keyval(p)[..|NAMES[p.0]|] == NAMES[p.0] && Keyval(p)[|NAMES[p.0]| + 1..] == p.1
  {
    NamesWithoutEquals();
    FindCharAfter(NAMES[p.0], ['='] + p.1, '=');
    FindFieldIs(p.0);
    var kv := Keyval(p);
    assert kv[..|NAMES[p.0]|] == NAMES[p.0] && kv[|NAMES[p.0]| + 1..] == p.1;
  }

  lemma {:induction false} KeyvalsSet(st: Step, ps: seq<Pair>)
    ensures SetAll(st, Keyvals(ps)) == Assign(st, ps)
    decreases |ps|
  {
    if ps == [] {
    } else {
      KeyvalSets(st, ps[0]);
      assert Keyvals(ps)[1..] == Keyvals(ps[1..]);
      match Stored(ps[0].0, ps[0].1)
      case None =>
      case Some(f) => KeyvalsSet(st[ps[0].0 := f], ps[1..]);
    }
  }

  /** What step_write is told; log and time are only written if they are given. */
  datatype Args = Args(name: string, exit: int, duration: int, delta: int, log: string, user: string, time: Option<int>, skip: bool)

  function Pairs(a: Args): seq<Pair> {
    [(NAME, a.name)] + ([(2, Decimal(a.exit))] + ([(3, Decimal(a.duration))] + ([(4, Decimal(a.delta))] + LogOn(a))))
  }

  function LogOn(a: Args): seq<Pair> {
    if a.log == "" then UserOn(a) else [(5, a.log)] + UserOn(a)
  }

  function UserOn(a: Args): seq<Pair> {
    [(USER, a.user)] + if a.time.None? then SkipOn(a) else [(7, Decimal(a.time.value))] + SkipOn(a)
  }

  function SkipOn(a: Args): seq<Pair> {
    [(8, Decimal(if a.skip then 1 else 0))] + []
  }

  predicate In64(i: int) {
    INT64_MIN <= i <= INT64_MAX
  }

  predicate Proper(a: Args) {
    && a.name != "" && a.user != "" && Free(a.name) && Free(a.user) && Free(a.log)
    && In64(a.exit) && In64(a.duration) && In64(a.delta) && (a.time.Some? ==> In64(a.time.value))
  }

  /** The row after the call. */
  function Filled(st: Step, a: Args): Step {
    FilledLog(st[NAME := Str(a.name)][2 := Int(a.exit)][3 := Int(a.duration)][4 := Int(a.delta)], a)
  }

  function FilledLog(st: Step, a: Args): Step {
    FilledUser(if a.log == "" then st else st[5 := Str(a.log)], a)
  }

  function FilledUser(st: Step, a: Args): Step {
    var s := st[USER := Str(a.user)];
    FilledSkip(if a.time.None? then s else s[7 := Int(a.time.value)], a)
  }

  function FilledSkip(st: Step, a: Args): Step {
    st[8 := Int(if a.skip then 1 else 0)]
  }

  lemma AssignCons(st: Step, i: nat, val: string, f: Field, rest: seq<Pair>)
    requires i < NFIELDS && Stored(i, val) == Some(f)
    ensures Assign(st, [(i, val)] + rest) == Assign(st[i := f], rest)
  {
    var ps: seq<Pair> := [(i, val)] + rest;
    assert ps[1..] == rest;
  }

  lemma AssignInt(st: Step, i: nat, v: int, rest: seq<Pair>)
    requires IsInteger(i) && In64(v)
    ensures Assign(st, [(i, Decimal(v))] + rest) == Assign(st[i := Int(v)], rest)
  {
    StrtonumOfDecimal(v, INT64_MIN, INT64_MAX);
    AssignCons(st, i, Decimal(v), Int(v), rest);
  }

  lemma SkipAssigned(st: Step, a: Args)
    ensures Assign(st, SkipOn(a)) == Some(FilledSkip(st, a))
  {
    AssignInt(st, 8, if a.skip then 1 else 0, []);
  }

  lemma UserAssigned(st: Step, a: Args)
    requires Proper(a)
    ensures Assign(st, UserOn(a)) == Some(FilledUser(st, a))
  {
    var s := st[USER := Str(a.user)];
    AssignCons(st, USER, a.user, Str(a.user), if a.time.None? then SkipOn(a) else [(7, Decimal(a.time.value))] + SkipOn(a));
    if a.time.Some? {
      AssignInt(s, 7, a.time.value, SkipOn(a));
      SkipAssigned(s[7 := Int(a.time.value)], a);
    } else {
      SkipAssigned(s, a);
    }
  }

  lemma LogAssigned(st: Step, a: Args)
    requires Proper(a)
    ensures Assign(st, LogOn(a)) == Some(FilledLog(st, a))
  {
    if a.log != "" {
      AssignCons(st, 5, a.log, Str(a.log), UserOn(a));
      UserAssigned(st[5 := Str(a.log)], a);
    } else {
      UserAssigned(st, a);
    }
  }

  /** The arguments set exactly the fields that they name. */
  lemma ArgsAssigned(st: Step, a: Args)
    requires Proper(a)
    ensures SetAll(st, Keyvals(Pairs(a))) == Some(Filled(st, a))
  {
    KeyvalsSet(st, Pairs(a));
    hide SetAll, Keyvals, Assign, LogOn, FilledLog, Decimal;
    var s1 := st[NAME := Str(a.name)];
    var s2 := s1[2 := Int(a.exit)];
    var s3 := s2[3 := Int(a.duration)];
    AssignCons(st, NAME, a.name, Str(a.name),
               [(2, Decimal(a.exit))] + ([(3, Decimal(a.duration))] + ([(4, Decimal(a.delta))] + LogOn(a))));
    AssignInt(s1, 2, a.exit, [(3, Decimal(a.duration))] + ([(4, Decimal(a.delta))] + LogOn(a)));
    AssignInt(s2, 3, a.duration, [(4, Decimal(a.delta))] + LogOn(a));
    AssignInt(s3, 4, a.delta, LogOn(a));
    LogAssigned(s3[4 := Int(a.delta)], a);
  }

  // ----- the call is good -----

  /** The value can be stored in the field. */
  predicate GoodPair(p: Pair) {
    p.0 != STEP && Free(p.1) && (p.0 == NAME || p.0 == USER ==> p.1 != "")
  }

  lemma {:induction false} KeyvalsGood(ps: seq<Pair>)
    requires forall i :: 0 <= i < |ps| ==> GoodPair(ps[i])
    ensures forall i :: 0 <= i < |Keyvals(ps)| ==> GoodKeyval(Keyvals(ps)[i])
  {
    if ps == [] {
    } else {
      var p := ps[0];
      KeyvalSets(Initial(), p);
      NamesDistinct();
      FindFieldIs(p.0);
      FindFieldIs(NAME);
      FindFieldIs(USER);
      FindFieldIs(STEP);
      assert GoodKeyval(Keyval(p));
      KeyvalsGood(ps[1..]);
    }
  }

  lemma ArgsGood(a: Args)
    requires Proper(a)
    ensures forall i :: 0 <= i < |Keyvals(Pairs(a))| ==> GoodKeyval(Keyvals(Pairs(a))[i])
  {
    DecimalFree(a.exit);
    DecimalFree(a.duration);
    DecimalFree(a.delta);
    DecimalFree(if a.skip then 1 else 0);
    if a.time.Some? {
      DecimalFree(a.time.value);
    }
    assert forall i :: 0 <= i < |SkipOn(a)| ==> GoodPair(SkipOn(a)[i]);
    assert forall i :: 0 <= i < |UserOn(a)| ==> GoodPair(UserOn(a)[i]);
    assert forall i :: 0 <= i < |LogOn(a)| ==> GoodPair(LogOn(a)[i]);
    KeyvalsGood(Pairs(a));
  }

  // ----- the file as the step loop sees it -----

  function IntOf(f: Field): int {
    if f.Int? then f.i else 0
  }

  function RowOf(st: Step): Runner.Row {
    Runner.Row(if Id(st) >= 0 then Id(st) else 0, if st[NAME].Str? then st[NAME].s else "", IntOf(st[2]), IntOf(st[3]), IntOf(st[8]) == 1)
  }

  function FileOf(rows: seq<Step>): Runner.File {
    seq(|rows|, i requires 0 <= i < |rows| => RowOf(rows[i]))
  }

  /** What step_eval finds at a position is what robsd-step shows there. */
  lemma StepEvalIs(rows: seq<Step>, i: int)
    ensures Runner.RowAt(FileOf(rows), i) ==
            match ReadAt(rows, i) case None => None case Some(st) => Some(RowOf(st))
  {}

  /** So step_next looks at the rows that robsd-step shows at positions -1, -2 and so on. */
  lemma NextReadsFromEnd(rows: seq<Step>, k: int)
    requires 1 <= k <= |rows|
    ensures ReadAt(rows, -k).Some? && FileOf(rows)[|rows| - k] == RowOf(ReadAt(rows, -k).value)
  {
    StepEvalIs(rows, -k);
  }

  /** A file whose rows are those of a map with positive ids. */
  ghost predicate Listed(rows: seq<Step>, m: map<int, Step>) {
    Ascending(rows) && Holds(rows, m) && forall id :: id in m ==> id > 0
  }

  lemma FileAscending(rows: seq<Step>, m: map<int, Step>)
    requires Listed(rows, m)
    ensures Runner.Ascending(FileOf(rows))
  {
    forall i | 0 <= i < |rows| ensures FileOf(rows)[i].id == Id(rows[i]) {
      assert Id(rows[i]) in m;
    }
  }

  lemma GetOfFile(rows: seq<Step>, m: map<int, Step>, id: nat)
    requires Listed(rows, m)
    ensures Runner.Get(FileOf(rows), id) == if id in m then Some(RowOf(m[id])) else None
  {
    FileAscending(rows, m);
    assert forall i :: 0 <= i < |rows| ==> Id(rows[i]) in m;
    if id in m {
      assert m[id] in rows;
      var i :| 0 <= i < |rows| && rows[i] == m[id];
      Runner.GetAt(FileOf(rows), i);
    } else if Runner.Get(FileOf(rows), id).Some? {
      var i := Runner.GetFound(FileOf(rows), id);
    }
  }

  /** Files in order are the same if all lookups by id are. */
  lemma {:induction false} SameFile(f: Runner.File, g: Runner.File)
    requires Runner.Ascending(f) && Runner.Ascending(g)
    requires forall id: nat :: Runner.Get(f, id) == Runner.Get(g, id)
    ensures f == g
  {
    assert f != [] ==> Runner.Get(f, f[0].id) == Some(f[0]);
    assert g != [] ==> Runner.Get(g, g[0].id) == Some(g[0]);
    assert g != [] ==> Runner.Get(f, g[0].id) == Runner.Get(g, g[0].id);
    if f != [] && g != [] {
      SameFirstRow(f, g);
      forall id: nat ensures Runner.Get(f[1..], id) == Runner.Get(g[1..], id) {
        if id == f[0].id {
          Runner.GetSmall(f[1..], id);
          Runner.GetSmall(g[1..], id);
        }
        assert Runner.Get(f, id) == Runner.Get(g, id);
      }
      SameFile(f[1..], g[1..]);
      assert f == [f[0]] + f[1..] && g == [g[0]] + g[1..];
    }
  }

  lemma SameFirstRow(f: Runner.File, g: Runner.File)
    requires f != [] && g != [] && Runner.Ascending(f) && Runner.Ascending(g)
    requires forall id: nat :: Runner.Get(f, id) == Runner.Get(g, id)
    ensures f[0] == g[0]
  {
    if f[0].id < g[0].id {
      Runner.GetSmall(g, f[0].id);
    } else if g[0].id < f[0].id {
      Runner.GetSmall(f, g[0].id);
    }
    assert Runner.Get(f, f[0].id) == Runner.Get(g, f[0].id);
  }

  lemma PutListed(rows: seq<Step>, m: map<int, Step>, id: nat, st: Step, rows2: seq<Step>)
    requires Listed(rows, m) && id > 0 && st[STEP] == Int(id) && Listed(rows2, m[id := st])
    ensures FileOf(rows2) == Runner.Put(FileOf(rows), RowOf(st))
  {
    var f, g := FileOf(rows2), Runner.Put(FileOf(rows), RowOf(st));
    FileAscending(rows, m);
    FileAscending(rows2, m[id := st]);
    Runner.PutAscending(FileOf(rows), RowOf(st));
    forall j: nat ensures Runner.Get(f, j) == Runner.Get(g, j) {
      GetOfFile(rows, m, j);
      GetOfFile(rows2, m[id := st], j);
      Runner.GetPut(FileOf(rows), RowOf(st), j);
    }
    SameFile(f, g);
  }

  lemma FilledFields(base: Step, id: nat, a: Args)
    requires base[STEP] == Int(id) && base[5] != Unknown && (a.time.Some? || base[7] != Unknown)
    ensures var st := Filled(base, a);
            && st[STEP] == Int(id) && st[NAME] == Str(a.name) && st[2] == Int(a.exit) && st[3] == Int(a.duration)
            && st[8] == Int(if a.skip then 1 else 0)
            && st[4] != Unknown && st[5] != Unknown && st[USER] != Unknown && st[7] != Unknown
  {}

  lemma FilledComplete(m: map<int, Step>, id: nat, a: Args)
    requires Proper(a) && (a.time.Some? || id in m) && (id in m ==> Good(m[id]) && m[id][STEP] == Int(id))
    ensures var st := Filled(if id in m then m[id] else Base(id), a);
            && Unknown !in st && st[STEP] == Int(id)
            && RowOf(st) == Runner.Row(id, a.name, a.exit, a.duration, a.skip)
  {
    var base := if id in m then m[id] else Base(id);
    if id in m {
      assert base[5] in base && base[7] in base;
    }
    FilledFields(base, id, a);
    FieldsRow(Filled(base, a), id, a);
  }

  lemma FieldsRow(st: Step, id: nat, a: Args)
    requires st[STEP] == Int(id) && st[NAME] == Str(a.name) && st[2] == Int(a.exit) && st[3] == Int(a.duration)
    requires st[8] == Int(if a.skip then 1 else 0)
    requires st[4] != Unknown && st[5] != Unknown && st[USER] != Unknown && st[7] != Unknown
    ensures Unknown !in st && RowOf(st) == Runner.Row(id, a.name, a.exit, a.duration, a.skip)
  {}

  /**
   One call of step_write, with values that can be stored, is one `Put` of the step
   loop: it does not fail, and the file then reads as the old one with that row. A
   new row needs the time.
   */
  lemma StepWriteIsPut(text: string, m: map<int, Step>, id: nat, a: Args, text2: string, error: bool)
    requires FileHolds(text, m) && (forall k :: k in m ==> k > 0) && 0 < id <= INT64_MAX
    requires Proper(a) && (a.time.Some? || id in m)
    requires Written(text, id, Keyvals(Pairs(a)), text2, error)
    ensures !error && ParseFile(text).Some? && ParseFile(text2).Some?
    ensures FileOf(ParseFile(text2).value) ==
            Runner.Put(FileOf(ParseFile(text).value), Runner.Row(id, a.name, a.exit, a.duration, a.skip))
  {
    var kvs, base := Keyvals(Pairs(a)), if id in m then m[id] else Base(id);
    assert Listed(ParseFile(text).value, m);
    assert id in m ==> m[id][STEP] == Int(id);
    ArgsGood(a);
    ArgsAssigned(base, a);
    FilledComplete(m, id, a);
    GoodKeyvals(m, id, kvs);
    WriteRefines(text, m, id, kvs, text2, error);
    WriteIs(m, id, kvs, Filled(base, a));
    hide Listed, Filled, RowOf, Pairs, Keyvals, ParseFile, Holds, Written, Proper, FileOf;
    PutListed(ParseFile(text).value, m, id, Filled(base, a), ParseFile(text2).value);
  }

  /** The row that a call leaves: what was given, and for a log or time that was not, what was there. */
  function Given(base: Step, id: nat, a: Args): Step {
    [Int(id), Str(a.name), Int(a.exit), Int(a.duration), Int(a.delta), if a.log == "" then base[5] else Str(a.log),
     Str(a.user), if a.time.None? then base[7] else Int(a.time.value), Int(if a.skip then 1 else 0)]
  }

  lemma FilledIs(base: Step, id: nat, a: Args)
    requires base[STEP] == Int(id)
    ensures Filled(base, a) == Given(base, id, a)
  {}

  /** And the file is the map of before with exactly that row changed or added. */
  lemma StepWriteRow(text: string, m: map<int, Step>, id: nat, a: Args, text2: string, error: bool)
    requires FileHolds(text, m) && 0 < id <= INT64_MAX && Proper(a) && (a.time.Some? || id in m)
    requires Written(text, id, Keyvals(Pairs(a)), text2, error)
    ensures FileHolds(text2, m[id := Given(if id in m then m[id] else Initial()[STEP := Int(id)], id, a)])
  {
    var kvs, base := Keyvals(Pairs(a)), if id in m then m[id] else Base(id);
    assert id in m ==> m[id][STEP] == Int(id);
    ArgsGood(a);
    ArgsAssigned(base, a);
    FilledComplete(m, id, a);
    GoodKeyvals(m, id, kvs);
    WriteRefines(text, m, id, kvs, text2, error);
    WriteIs(m, id, kvs, Filled(base, a));
    FilledIs(base, id, a);
  }

  lemma WriteIs(m: map<int, Step>, id: int, kvs: seq<string>, st: Step)
    requires Accepts(m, id, kvs) && Updated(m, id, kvs) == Some(st) && st[STEP] == Int(id)
    ensures MapWrite(m, id, kvs) == m[id := st]
  {
    hide PrintRow, SetAll;
    assert Id(st) == id;
    assert (m - {id})[id := st] == m[id := st];
  }
}
