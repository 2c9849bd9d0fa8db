/**
 robsd-step -W: one call updates or adds the row with a given id and rewrites the
 sorted file. A run of calls is a finite map from ids to rows.
 */
module StepUpsert {
  import opened Wrappers
  import opened Lexing
  import opened Text
  import opened Interpolation
  import opened StepRows
  import opened StepText

  /** A field that is not set counts as zero. */
  function Id(st: Step): int {
    if st[STEP].Int? then st[STEP].i else 0
  }

  /** Index of the first row with an id. */
  function FindById(rows: seq<Step>, id: int): (r: Option<nat>)
    ensures r.Some? ==> r.value < |rows| && rows[r.value][STEP] == Int(id)
    ensures r.None? ==> forall i :: 0 <= i < |rows| ==> rows[i][STEP] != Int(id)
  {
    if rows == [] then None
    else if rows[0][STEP] == Int(id) then Some(0)
    else match FindById(rows[1..], id) case None => None case Some(i) => Some(i + 1)
  }

  /** Sets a field from text of the form key=value. */
  function SetKeyval(st: Step, kv: string): Option<Step> {
    var n := FindChar(kv, '=');
    if n == |kv| then None else SetField(st, kv[..n], kv[n + 1..])
  }

  function SetAll(st: Step, kvs: seq<string>): Option<Step>
    decreases |kvs|
  {
    if kvs == [] then Some(st)
    else match SetKeyval(st, kvs[0]) case None => None case Some(st2) => SetAll(st2, kvs[1..])
  }

  /** The row a call starts from. */
  function Base(id: int): Step {
    Initial()[STEP := Int(id)]
  }

  function Merge(rows: seq<Step>, id: int, kvs: seq<string>): Option<seq<Step>> {
    match FindById(rows, id)
    case None => (match SetAll(Base(id), kvs) case None => None case Some(st) => Some(rows + [st]))
    case Some(i) => (match SetAll(rows[i], kvs) case None => None case Some(st) => Some(rows[i := st]))
  }

  predicate Ordered(rows: seq<Step>) {
    forall i, j :: 0 <= i < j < |rows| ==> Id(rows[i]) <= Id(rows[j])
  }

  /** What sorting may return: rows with equal ids come in any order. */
  predicate SortedPermutation(rows: seq<Step>, sorted: seq<Step>) {
    multiset(sorted) == multiset(rows) && Ordered(sorted)
  }

  /** What a call may leave in the file and report. */
  ghost predicate Written(text: string, id: int, kvs: seq<string>, text2: string, error: bool) {
    match ParseFile(text)
    case None => error && text2 == text
    case Some(rows) =>
      match Merge(rows, id, kvs)
      case None => error && text2 == text
      case Some(merged) => exists sorted :: SortedPermutation(merged, sorted) && Saved(text, sorted, text2, error)
  }

  /** The file is replaced if all rows can be printed, and else is left alone. */
  predicate Saved(text: string, rows: seq<Step>, text2: string, error: bool) {
    match Print(rows)
    case None => error && text2 == text
    case Some(t) => !error && text2 == t
  }

  // ----- sorting -----

  function Insert(st: Step, rows: seq<Step>): seq<Step> {
    if rows == [] || Id(st) <= Id(rows[0]) then [st] + rows else [rows[0]] + Insert(st, rows[1..])
  }

  function Sort(rows: seq<Step>): seq<Step> {
    if rows == [] then [] else Insert(rows[0], Sort(rows[1..]))
  }

  lemma {:induction false} InsertPermutes(st: Step, rows: seq<Step>)
    ensures multiset(Insert(st, rows)) == multiset(rows) + multiset{st}
  {
    if rows != [] && Id(st) > Id(rows[0]) {
      InsertPermutes(st, rows[1..]);
      assert rows == [rows[0]] + rows[1..];
    }
  }

  lemma OrderedCons(st: Step, rows: seq<Step>)
    requires Ordered(rows) && (rows == [] || Id(st) <= Id(rows[0]))
    ensures Ordered([st] + rows)
  {}

  lemma {:induction false} InsertOrders(st: Step, rows: seq<Step>)
    requires Ordered(rows)
    ensures Ordered(Insert(st, rows)) && (Insert(st, rows)[0] == st || (rows != [] && Insert(st, rows)[0] == rows[0]))
  {
    if rows == [] || Id(st) <= Id(rows[0]) {
      OrderedCons(st, rows);
    } else {
      InsertOrders(st, rows[1..]);
      OrderedCons(rows[0], Insert(st, rows[1..]));
    }
  }

  lemma {:induction false} SortSorts(rows: seq<Step>)
    ensures SortedPermutation(rows, Sort(rows))
  {
    if rows == [] {
    } else {
      hide Insert, Ordered, Id;
      SortSorts(rows[1..]);
      InsertPermutes(rows[0], Sort(rows[1..]));
      InsertOrders(rows[0], Sort(rows[1..]));
      assert rows == [rows[0]] + rows[1..];
    }
  }

  // ----- the file as a map -----

  predicate Ascending(rows: seq<Step>) {
    forall i, j :: 0 <= i < j < |rows| ==> Id(rows[i]) < Id(rows[j])
  }

  /** The map keeps each of the rows under its id, and nothing else. */
  ghost predicate Holds(rows: seq<Step>, m: map<int, Step>) {
    && (forall i :: 0 <= i < |rows| ==> Id(rows[i]) in m && m[Id(rows[i])] == rows[i])
    && (forall id :: id in m ==> m[id][STEP] == Int(id) && m[id] in rows)
  }

  lemma {:induction false} CountAt(rows: seq<Step>, st: Step)
    requires forall i, j :: 0 <= i < j < |rows| ==> !(rows[i] == st && rows[j] == st)
    ensures multiset(rows)[st] <= 1
  {
    if rows == [] {
    } else {
      assert rows == [rows[0]] + rows[1..];
      if rows[0] == st {
        assert st !in rows[1..] by {
          forall k | 0 <= k < |rows[1..]| ensures rows[1..][k] != st {
            assert rows[1..][k] == rows[k + 1];
          }
        }
      } else {
        CountAt(rows[1..], st);
      }
    }
  }

  lemma CountTwice(rows: seq<Step>, i: nat, j: nat)
    requires i < j < |rows| && rows[i] == rows[j]
    ensures multiset(rows)[rows[i]] >= 2
  {
    assert rows == rows[..j] + rows[j..];
    assert rows[..j][i] in multiset(rows[..j]);
    assert rows[j..][0] in multiset(rows[j..]);
  }

  lemma SortedHolds(merged: seq<Step>, sorted: seq<Step>, m: map<int, Step>)
    requires Distinct(merged) && Holds(merged, m) && SortedPermutation(merged, sorted)
    ensures Ascending(sorted) && Holds(sorted, m)
  {
    forall st ensures st in sorted <==> st in merged {
      assert st in multiset(sorted) <==> st in multiset(merged);
    }
    forall i | 0 <= i < |sorted| ensures sorted[i] in merged {
      assert sorted[i] in sorted;
    }
    forall i, j | 0 <= i < j < |sorted| ensures Id(sorted[i]) < Id(sorted[j]) {
      if Id(sorted[i]) == Id(sorted[j]) {
        CountTwice(sorted, i, j);
        CountAt(merged, sorted[i]);
      }
    }
  }

  predicate Distinct(rows: seq<Step>) {
    forall i, j :: 0 <= i < j < |rows| ==> Id(rows[i]) != Id(rows[j])
  }

  lemma FindHeld(rows: seq<Step>, m: map<int, Step>, id: int)
    requires Holds(rows, m)
    ensures FindById(rows, id).Some? <==> id in m
    ensures FindById(rows, id).Some? ==> rows[FindById(rows, id).value] == m[id]
  {
    if id in m {
      var i :| 0 <= i < |rows| && rows[i] == m[id];
    }
  }

  lemma ReplaceHolds(rows: seq<Step>, m: map<int, Step>, at: nat, st: Step)
    requires Distinct(rows) && Holds(rows, m) && at < |rows| && st[STEP] == Int(Id(rows[at]))
    ensures Distinct(rows[at := st]) && Holds(rows[at := st], m[Id(st) := st])
  {
    forall k | k in m && k != Id(st) ensures m[k] in rows[at := st] {
      var i :| 0 <= i < |rows| && rows[i] == m[k];
      assert rows[at := st][i] == m[k];
    }
    assert rows[at := st][at] == st;
  }

  lemma AppendHolds(rows: seq<Step>, m: map<int, Step>, st: Step)
    requires Distinct(rows) && Holds(rows, m) && st[STEP] == Int(Id(st)) && Id(st) !in m
    ensures Distinct(rows + [st]) && Holds(rows + [st], m[Id(st) := st])
  {
    forall k | k in m ensures m[k] in rows + [st] {
      assert m[k] in rows;
    }
    assert (rows + [st])[|rows|] == st;
  }

  // ----- one call -----

  /** The row a call starts from, changed as it says. */
  function Updated(m: map<int, Step>, id: int, kvs: seq<string>): Option<Step> {
    SetAll(if id in m then m[id] else Base(id), kvs)
  }

  /** Nothing is refused, and the row can be printed. */
  predicate Accepts(m: map<int, Step>, id: int, kvs: seq<string>) {
    Updated(m, id, kvs).Some? && PrintRow(Updated(m, id, kvs).value).Some?
  }

  /** A call as a step on maps; the key `step` can give the row another id. */
  function MapWrite(m: map<int, Step>, id: int, kvs: seq<string>): map<int, Step> {
    if Accepts(m, id, kvs) then
      var st := Updated(m, id, kvs).value;
      (m - {id})[Id(st) := st]
    else m
  }

  /** If the call makes a row, this survives printing and parsing, and its id is not that of another row. */
  predicate Faithful(m: map<int, Step>, id: int, kvs: seq<string>) {
    Accepts(m, id, kvs) ==>
      var st := Updated(m, id, kvs).value;
      Storable(st) && (Id(st) == id || Id(st) !in m)
  }

  predicate IsId(id: int) {
    INT64_MIN <= id <= INT64_MAX && id != 0
  }

  /** The row can be written and read back. */
  predicate Good(st: Step) {
    Typed(st) && Storable(st)
  }

  /** The file holds the rows of a map in the order of their ids. */
  ghost predicate FileIs(text: string, m: map<int, Step>) {
    ParseFile(text).Some? && Ascending(ParseFile(text).value) && Holds(ParseFile(text).value, m)
  }

  ghost predicate AllGood(m: map<int, Step>) {
    forall id :: id in m ==> Good(m[id])
  }

  ghost predicate FileHolds(text: string, m: map<int, Step>) {
    FileIs(text, m) && AllGood(m)
  }

  lemma {:induction false} SetAllTyped(st: Step, kvs: seq<string>)
    requires Typed(st) && st[STEP].Int? && SetAll(st, kvs).Some?
    ensures Typed(SetAll(st, kvs).value) && SetAll(st, kvs).value[STEP].Int?
    decreases |kvs|
  {
    if kvs == [] {
    } else {
      SetAllTyped(SetKeyval(st, kvs[0]).value, kvs[1..]);
    }
  }

  lemma UpdatedTyped(m: map<int, Step>, id: int, kvs: seq<string>)
    requires IsId(id) && Updated(m, id, kvs).Some?
    requires id in m ==> Good(m[id]) && m[id][STEP] == Int(id)
    ensures var st := Updated(m, id, kvs).value; Typed(st) && st[STEP] == Int(Id(st))
  {
    var base := if id in m then m[id] else Base(id);
    assert Typed(base) && base[STEP].Int?;
    hide Typed, SetAll;
    SetAllTyped(base, kvs);
  }

  lemma MoveHolds(rows: seq<Step>, m: map<int, Step>, at: nat, id: int, st: Step)
    requires Distinct(rows) && Holds(rows, m) && at < |rows| && Id(rows[at]) == id != Id(st)
    requires st[STEP] == Int(Id(st)) && Id(st) !in m
    ensures Distinct(rows[at := st]) && Holds(rows[at := st], (m - {id})[Id(st) := st])
  {
    forall k | k in m && k != id ensures m[k] in rows[at := st] {
      var i :| 0 <= i < |rows| && rows[i] == m[k];
      assert rows[at := st][i] == m[k];
    }
    assert rows[at := st][at] == st;
  }

  /** The rows after a merge: the row that was made, and rows of before. */
  lemma MergeRows(rows: seq<Step>, m: map<int, Step>, id: int, kvs: seq<string>)
    requires Holds(rows, m)
    ensures Merge(rows, id, kvs).Some? <==> Updated(m, id, kvs).Some?
    ensures Merge(rows, id, kvs).Some? ==>
              var merged, st := Merge(rows, id, kvs).value, Updated(m, id, kvs).value;
              st in merged && forall r :: r in merged ==> r == st || r in rows
  {
    FindHeld(rows, m, id);
    if Updated(m, id, kvs).Some? {
      var merged, st := Merge(rows, id, kvs).value, Updated(m, id, kvs).value;
      var at := if id in m then FindById(rows, id).value else |rows|;
      assert merged[at] == st;
      forall r | r in merged ensures r == st || r in rows {
        var i :| 0 <= i < |merged| && merged[i] == r;
        if i != at {
          assert rows[i] == r;
        }
      }
    }
  }

  lemma MergeHolds(rows: seq<Step>, m: map<int, Step>, id: int, kvs: seq<string>, st: Step)
    requires Ascending(rows) && Holds(rows, m)
    requires Updated(m, id, kvs) == Some(st) && st[STEP] == Int(Id(st)) && (Id(st) == id || Id(st) !in m)
    ensures Merge(rows, id, kvs).Some?
    ensures Distinct(Merge(rows, id, kvs).value) && Holds(Merge(rows, id, kvs).value, (m - {id})[Id(st) := st])
  {
    FindHeld(rows, m, id);
    if id !in m {
      AppendHolds(rows, m, st);
      assert m - {id} == m;
    } else if Id(st) == id {
      ReplaceHolds(rows, m, FindById(rows, id).value, st);
      assert (m - {id})[id := st] == m[id := st];
    } else {
      MoveHolds(rows, m, FindById(rows, id).value, id, st);
    }
  }

  /** Two rows have an id, unless the row that was made took one that was free. */
  lemma MergeClashes(rows: seq<Step>, m: map<int, Step>, id: int, kvs: seq<string>, st: Step, sorted: seq<Step>)
    requires Holds(rows, m) && Updated(m, id, kvs) == Some(st) && Id(st) != id && Id(st) in m
    requires Merge(rows, id, kvs).Some? && SortedPermutation(Merge(rows, id, kvs).value, sorted)
    ensures !Ascending(sorted)
  {
    var merged := Merge(rows, id, kvs).value;
    FindHeld(rows, m, id);
    var at := if id in m then FindById(rows, id).value else |rows|;
    assert m[Id(st)] in rows;
    var b :| 0 <= b < |rows| && rows[b] == m[Id(st)];
    assert merged[at] == st && merged[b] == rows[b] && b != at;
    SameIdStays(merged, sorted, at, b);
  }

  lemma SameIdStays(merged: seq<Step>, sorted: seq<Step>, i: nat, j: nat)
    requires multiset(sorted) == multiset(merged) && i < |merged| && j < |merged| && i != j && Id(merged[i]) == Id(merged[j])
    ensures !Ascending(sorted)
  {
    if merged[i] == merged[j] {
      CountTwice(merged, if i < j then i else j, if i < j then j else i);
      if Ascending(sorted) {
        CountAt(sorted, merged[i]);
      }
    } else {
      assert merged[i] in multiset(sorted) && merged[j] in multiset(sorted);
      var a :| 0 <= a < |sorted| && sorted[a] == merged[i];
      var b :| 0 <= b < |sorted| && sorted[b] == merged[j];
    }
  }

  lemma {:induction false} PrintsAll(rows: seq<Step>)
    ensures PrintRows(rows).Some? <==> forall i :: 0 <= i < |rows| ==> PrintRow(rows[i]).Some?
  {
    hide PrintRow;
    if rows == [] {
    } else {
      PrintsAll(rows[1..]);
      assert forall i :: 1 <= i < |rows| ==> rows[i] == rows[1..][i - 1];
      assert forall i :: 0 <= i < |rows[1..]| ==> rows[1..][i] == rows[i + 1];
    }
  }

  /** The file can be printed exactly if the new row can: all others can. */
  lemma PrintedIf(rows: seq<Step>, st: Step)
    requires st in rows && forall r :: r in rows ==> r == st || Good(r)
    ensures Print(rows).Some? <==> PrintRow(st).Some?
  {
    PrintsAll(rows);
    forall i | 0 <= i < |rows| ensures rows[i] != st ==> PrintRow(rows[i]).Some? {
      if rows[i] != st {
        assert rows[i] in rows;
        PrintRowOf(rows[i]);
      }
    }
    var i :| 0 <= i < |rows| && rows[i] == st;
  }

  lemma PrintHeld(rows: seq<Step>, m: map<int, Step>)
    requires Ascending(rows) && Holds(rows, m) && AllGood(m)
    ensures Print(rows).Some? && FileHolds(Print(rows).value, m)
  {
    forall i | 0 <= i < |rows| ensures Typed(rows[i]) && Storable(rows[i]) {
      assert Good(m[Id(rows[i])]);
    }
    ParsePrint(rows);
  }

  /** Rows read back from what was printed are storable. */
  lemma ReadBack(rows: seq<Step>, m: map<int, Step>, id: int)
    requires Print(rows).Some? && FileIs(Print(rows).value, m) && id in m
    ensures Storable(m[id])
  {
    PrintRowsNoDollar(rows);
    NamesClean();
    LineNoDollar(NAMES);
    var text := Print(rows).value;
    ParsedStorable(text);
    var i :| 0 <= i < |ParseFile(text).value| && ParseFile(text).value[i] == m[id];
  }

  /** What is written is what the map says if and only if the row that was made is storable and its id was free. */
  lemma SavedIff(rows: seq<Step>, m: map<int, Step>, id: int, kvs: seq<string>, st: Step, sorted: seq<Step>)
    requires Ascending(rows) && Holds(rows, m) && AllGood(m) && Updated(m, id, kvs) == Some(st)
    requires Typed(st) && st[STEP] == Int(Id(st)) && Merge(rows, id, kvs).Some?
    requires SortedPermutation(Merge(rows, id, kvs).value, sorted) && Print(sorted).Some?
    requires forall r :: r in sorted ==> r == st || Good(r)
    ensures var m2, faithful := (m - {id})[Id(st) := st], Storable(st) && (Id(st) == id || Id(st) !in m);
            && (FileIs(Print(sorted).value, m2) <==> faithful)
            && (faithful ==> FileHolds(Print(sorted).value, m2))
  {
    hide ParseFile, Print, Storable, Typed, Merge, Updated, SortedPermutation, Ascending, Holds;
    var m2 := (m - {id})[Id(st) := st];
    if Id(st) == id || Id(st) !in m {
      MergeHolds(rows, m, id, kvs, st);
      SortedHolds(Merge(rows, id, kvs).value, sorted, m2);
      if Storable(st) {
        assert AllGood(m2);
        PrintHeld(sorted, m2);
      }
    }
    if FileIs(Print(sorted).value, m2) {
      ReadBack(sorted, m2, Id(st));
      if Id(st) != id && Id(st) in m {
        MergeClashes(rows, m, id, kvs, st, sorted);
        assert forall i :: 0 <= i < |sorted| ==> sorted[i] in sorted && Good(sorted[i]);
        ParsePrint(sorted);
      }
    }
  }

  /**
   A call with any values acts on the file as it acts on the map, if and only if the
   row that it makes can be read back and does not take the id of another row. It
   reports an error exactly if it makes no row, and then leaves the file alone.
   */
  lemma WriteRefines(text: string, m: map<int, Step>, id: int, kvs: seq<string>, text2: string, error: bool)
    requires FileHolds(text, m) && IsId(id) && Written(text, id, kvs, text2, error)
    ensures error <==> !Accepts(m, id, kvs)
    ensures error ==> text2 == text
    ensures FileIs(text2, MapWrite(m, id, kvs)) <==> Faithful(m, id, kvs)
    ensures Faithful(m, id, kvs) ==> FileHolds(text2, MapWrite(m, id, kvs))
  {
    var rows := ParseFile(text).value;
    MergeRows(rows, m, id, kvs);
    if Updated(m, id, kvs).Some? {
      UpdatedTyped(m, id, kvs);
      var st, merged := Updated(m, id, kvs).value, Merge(rows, id, kvs).value;
      var sorted :| SortedPermutation(merged, sorted) && Saved(text, sorted, text2, error);
      SortedMembers(rows, m, merged, st, sorted);
      PrintedIf(sorted, st);
      if Print(sorted).Some? {
        SavedIff(rows, m, id, kvs, st, sorted);
      }
    }
  }

  lemma SortedMembers(rows: seq<Step>, m: map<int, Step>, merged: seq<Step>, st: Step, sorted: seq<Step>)
    requires Holds(rows, m) && AllGood(m) && SortedPermutation(merged, sorted)
    requires st in merged && forall r :: r in merged ==> r == st || r in rows
    ensures st in sorted && forall r :: r in sorted ==> r == st || Good(r)
  {
    assert st in multiset(merged);
    forall r | r in sorted ensures r == st || Good(r) {
      assert r in multiset(merged);
      if r in rows {
        var i :| 0 <= i < |rows| && rows[i] == r;
        assert Good(m[Id(rows[i])]);
      }
    }
  }

  // ----- values that are always read back -----

  /** The value can be stored, and the id is not changed. */
  predicate GoodKeyval(kv: string) {
    var n := FindChar(kv, '=');
    n < |kv| ==>
      var key, val := kv[..n], kv[n + 1..];
      key != NAMES[STEP] && Free(val) && (val == "" ==> key != NAMES[NAME] && key != NAMES[USER])
  }

  lemma SetKeyvalKeeps(st: Step, kv: string)
    requires PartlyStorable(st) && GoodKeyval(kv) && SetKeyval(st, kv).Some?
    ensures PartlyStorable(SetKeyval(st, kv).value) && SetKeyval(st, kv).value[STEP] == st[STEP]
  {
    var n := FindChar(kv, '=');
    var key, val := kv[..n], kv[n + 1..];
    if val != "" {
      SetFieldStorable(st, key, val);
    } else {
      var i := FindField(key).value;
      assert i != NAME && i != USER;
      assert Strtonum("", INT64_MIN, INT64_MAX).None?;
    }
  }

  lemma {:induction false} SetAllKeeps(st: Step, kvs: seq<string>)
    requires PartlyStorable(st) && (forall i :: 0 <= i < |kvs| ==> GoodKeyval(kvs[i])) && SetAll(st, kvs).Some?
    ensures PartlyStorable(SetAll(st, kvs).value) && SetAll(st, kvs).value[STEP] == st[STEP]
    decreases |kvs|
  {
    if kvs == [] {
    } else {
      SetKeyvalKeeps(st, kvs[0]);
      SetAllKeeps(SetKeyval(st, kvs[0]).value, kvs[1..]);
    }
  }

  lemma CompleteIsGood(st: Step)
    requires PartlyStorable(st)
    ensures Good(st) <==> Unknown !in st
    ensures Storable(st) <==> Unknown !in st
  {
    if Unknown in st {
      var k :| 0 <= k < NFIELDS && st[k] == Unknown;
    } else {
      assert forall k :: 0 <= k < NFIELDS ==> st[k] in st;
    }
  }

  lemma CompletePrints(st: Step)
    requires PartlyStorable(st)
    ensures PrintRow(st).Some? <==> Unknown !in st
    ensures Storable(st) <==> Unknown !in st
  {
    CompleteIsGood(st);
    hide PrintRow, PartlyStorable, Storable, Typed;
    if PrintRow(st).Some? {
      PrintedRow(st);
      AllSet(st);
    }
    if Good(st) {
      PrintRowOf(st);
    }
  }

  lemma AllSet(st: Step)
    requires forall i :: 0 <= i < NFIELDS ==> st[i] != Unknown
    ensures Unknown !in st
  {}

  lemma BaseIsPartly(m: map<int, Step>, id: int)
    requires IsId(id) && (id in m ==> Good(m[id]) && m[id][STEP] == Int(id))
    ensures var base := if id in m then m[id] else Base(id); PartlyStorable(base) && base[STEP] == Int(id)
  {}

  /** Without separators and dollar signs, and without the key `step`, a call is accepted if it sets all fields. */
  lemma GoodKeyvals(m: map<int, Step>, id: int, kvs: seq<string>)
    requires IsId(id) && (id in m ==> Good(m[id]) && m[id][STEP] == Int(id))
    requires forall i :: 0 <= i < |kvs| ==> GoodKeyval(kvs[i])
    ensures Faithful(m, id, kvs)
    ensures Updated(m, id, kvs).Some? ==> Updated(m, id, kvs).value[STEP] == Int(id)
    ensures Accepts(m, id, kvs) <==> Updated(m, id, kvs).Some? && Unknown !in Updated(m, id, kvs).value
  {
    hide PartlyStorable, Typed, Storable, SetAll, PrintRow, GoodKeyval, Good, Base;
    if Updated(m, id, kvs).Some? {
      var base := if id in m then m[id] else Base(id);
      BaseIsPartly(m, id);
      SetAllKeeps(base, kvs);
      CompletePrints(Updated(m, id, kvs).value);
    }
  }

  // ----- runs -----

  datatype Call = Call(id: int, kvs: seq<string>)

  function MapRun(calls: seq<Call>, k: nat): map<int, Step>
    requires k <= |calls|
  {
    if k == 0 then map[] else MapWrite(MapRun(calls, k - 1), calls[k - 1].id, calls[k - 1].kvs)
  }

  ghost predicate WrittenBy(text: string, call: Call, text2: string) {
    exists error :: Written(text, call.id, call.kvs, text2, error)
  }

  /** The contents of a file that starts empty, before and after each call. */
  ghost predicate Run(calls: seq<Call>, texts: seq<string>) {
    && |texts| == |calls| + 1 && texts[0] == ""
    && forall i :: 0 <= i < |calls| ==> IsId(calls[i].id) && WrittenBy(texts[i], calls[i], texts[i + 1])
  }

  ghost predicate FaithfulUpTo(calls: seq<Call>, k: nat)
    requires k <= |calls|
  {
    forall i :: 0 <= i < k ==> Faithful(MapRun(calls, i), calls[i].id, calls[i].kvs)
  }

  lemma CallRefines(text: string, m: map<int, Step>, call: Call, text2: string)
    requires FileHolds(text, m) && IsId(call.id) && WrittenBy(text, call, text2)
    ensures FileIs(text2, MapWrite(m, call.id, call.kvs)) <==> Faithful(m, call.id, call.kvs)
    ensures Faithful(m, call.id, call.kvs) ==> FileHolds(text2, MapWrite(m, call.id, call.kvs))
  {
    var error :| Written(text, call.id, call.kvs, text2, error);
    WriteRefines(text, m, call.id, call.kvs, text2, error);
  }

  /** After calls that make rows which can be read back, the file holds the map. */
  lemma {:induction false} RunHolds(calls: seq<Call>, texts: seq<string>, k: nat)
    requires Run(calls, texts) && k <= |calls| && FaithfulUpTo(calls, k)
    ensures FileHolds(texts[k], MapRun(calls, k))
  {
    hide FileHolds, Faithful, MapWrite, WrittenBy;
    if k == 0 {
      EmptyFile();
    } else {
      RunHolds(calls, texts, k - 1);
      CallRefines(texts[k - 1], MapRun(calls, k - 1), calls[k - 1], texts[k]);
    }
  }

  lemma EmptyFile()
    ensures FileHolds("", map[])
  {
    assert ParseFile("") == Some([]);
  }

  /**
   Over any run of calls with any values, the file holds the rows of the map after
   every call, ids strictly ascending, if and only if no call makes a row that cannot
   be read back or takes the id of another row.
   */
  lemma {:induction false} RunRefines(calls: seq<Call>, texts: seq<string>, n: nat)
    requires Run(calls, texts) && n <= |calls|
    ensures (forall k :: 0 <= k <= n ==> FileIs(texts[k], MapRun(calls, k))) <==> FaithfulUpTo(calls, n)
  {
    hide FileIs, Faithful, MapWrite, WrittenBy;
    if n == 0 {
      EmptyFile();
    } else {
      RunRefines(calls, texts, n - 1);
      if FaithfulUpTo(calls, n - 1) {
        RunHolds(calls, texts, n - 1);
        CallRefines(texts[n - 1], MapRun(calls, n - 1), calls[n - 1], texts[n]);
      }
    }
  }

  // ----- lookup by position -----

  /** robsd-step -R -i: a positive number counts rows from the start, a negative one from the end. */
  function ReadAt(rows: seq<Step>, id: int): Option<Step> {
    if 0 < id <= |rows| then Some(rows[id - 1])
    else if -|rows| <= id < 0 then Some(rows[|rows| + id])
    else None
  }

  /** With positive ids, position k is row k if all ids up to k are there. */
  lemma {:induction false} PositionIsId(rows: seq<Step>, m: map<int, Step>, k: nat)
    requires Ascending(rows) && Holds(rows, m) && k > 0
    requires (forall id :: id in m ==> id > 0) && (forall id :: 1 <= id <= k ==> id in m)
    ensures ReadAt(rows, k) == Some(m[k])
  {
    assert m[k] in rows;
    var at :| 0 <= at < |rows| && rows[at] == m[k];
    if k > 1 {
      PositionIsId(rows, m, k - 1);
      assert Id(rows[k - 2]) == k - 1 && at > k - 2;
      assert Id(rows[k - 2]) < Id(rows[k - 1]);
    } else {
      assert Id(rows[0]) in m;
    }
  }

  ghost function Ids(rows: seq<Step>): set<int> {
    set i | 0 <= i < |rows| :: Id(rows[i])
  }

  lemma {:induction false} IdsCard(rows: seq<Step>)
    requires Ascending(rows)
    ensures |Ids(rows)| == |rows|
  {
    if rows == [] {
      assert Ids(rows) == {};
    } else {
      var n := |rows| - 1;
      IdsCard(rows[..n]);
      assert Ids(rows) == Ids(rows[..n]) + {Id(rows[n])} by {
        assert forall i :: 0 <= i < n ==> rows[..n][i] == rows[i];
        assert Id(rows[n]) in Ids(rows);
        forall i | 0 <= i < n ensures Id(rows[i]) in Ids(rows[..n]) {
          assert rows[..n][i] == rows[i];
        }
      }
      assert Id(rows[n]) !in Ids(rows[..n]);
    }
  }

  lemma KeysAre(rows: seq<Step>, m: map<int, Step>)
    requires Holds(rows, m)
    ensures m.Keys == Ids(rows)
  {
    forall id | id in m ensures id in Ids(rows) {
      var i :| 0 <= i < |rows| && rows[i] == m[id];
    }
  }

  /** The ids above one are those of the rows behind it, and the ids below it those of the rows before. */
  lemma IdsSplit(rows: seq<Step>, m: map<int, Step>, at: nat)
    requires Ascending(rows) && Holds(rows, m) && at < |rows|
    ensures (set id | id in m && id > Id(rows[at])) == Ids(rows[at + 1..])
    ensures (set id | id in m && id < Id(rows[at])) == Ids(rows[..at])
  {
    KeysAre(rows, m);
    IdsBehind(rows, at);
    IdsBefore(rows, at);
    hide Ascending, Holds, Ids, Id;
    assert (set id | id in m && id > Id(rows[at])) == set id | id in Ids(rows) && id > Id(rows[at]);
    assert (set id | id in m && id < Id(rows[at])) == set id | id in Ids(rows) && id < Id(rows[at]);
  }

  lemma IdsBehind(rows: seq<Step>, at: nat)
    requires Ascending(rows) && at < |rows|
    ensures (set id | id in Ids(rows) && id > Id(rows[at])) == Ids(rows[at + 1..])
  {
    var rest := rows[at + 1..];
    forall id | id in Ids(rows) && id > Id(rows[at]) ensures id in Ids(rest) {
      var i :| 0 <= i < |rows| && Id(rows[i]) == id;
      assert rest[i - at - 1] == rows[i];
    }
    forall id | id in Ids(rest) ensures id in Ids(rows) && id > Id(rows[at]) {
      var i :| 0 <= i < |rest| && Id(rest[i]) == id;
      assert rest[i] == rows[at + 1 + i];
    }
  }

  lemma IdsBefore(rows: seq<Step>, at: nat)
    requires Ascending(rows) && at < |rows|
    ensures (set id | id in Ids(rows) && id < Id(rows[at])) == Ids(rows[..at])
  {
    var rest := rows[..at];
    forall id | id in Ids(rows) && id < Id(rows[at]) ensures id in Ids(rest) {
      var i :| 0 <= i < |rows| && Id(rows[i]) == id;
      assert rest[i] == rows[i];
    }
    forall id | id in Ids(rest) ensures id in Ids(rows) && id < Id(rows[at]) {
      var i :| 0 <= i < |rest| && Id(rest[i]) == id;
      assert rest[i] == rows[i];
    }
  }

  lemma RankAt(rows: seq<Step>, m: map<int, Step>, at: nat)
    requires Ascending(rows) && Holds(rows, m) && at < |rows|
    ensures Id(rows[at]) in m && m[Id(rows[at])] == rows[at]
    ensures |set id | id in m && id > Id(rows[at])| == |rows| - at - 1
    ensures |set id | id in m && id < Id(rows[at])| == at
  {
    IdsSplit(rows, m, at);
    IdsCard(rows[at + 1..]);
    IdsCard(rows[..at]);
  }

  lemma HeldCard(rows: seq<Step>, m: map<int, Step>)
    requires Ascending(rows) && Holds(rows, m)
    ensures |m| == |rows|
  {
    IdsCard(rows);
    KeysAre(rows, m);
    assert |m| == |m.Keys|;
  }

  /** The row has this many ids of the map above it, or below it. */
  ghost predicate Ranked(st: Option<Step>, m: map<int, Step>, above: int, below: int) {
    && st.Some? && Id(st.value) in m && m[Id(st.value)] == st.value
    && |set id | id in m && id > Id(st.value)| == above
    && |set id | id in m && id < Id(st.value)| == below
  }

  /**
   Position -k is the row of the map that exactly k - 1 ids exceed, and position k the
   one that exceeds exactly k - 1 ids; there is no other position.
   */
  lemma PositionsFromEnds(rows: seq<Step>, m: map<int, Step>, k: int)
    requires Ascending(rows) && Holds(rows, m) && k > 0
    ensures ReadAt(rows, 0) == None
    ensures k > |m| ==> ReadAt(rows, k) == None && ReadAt(rows, -k) == None
    ensures k <= |m| ==> Ranked(ReadAt(rows, -k), m, k - 1, |m| - k) && Ranked(ReadAt(rows, k), m, |m| - k, k - 1)
  {
    HeldCard(rows, m);
    if k <= |rows| {
      RankAt(rows, m, |rows| - k);
      RankAt(rows, m, k - 1);
    }
  }
}
