/**
 Whole runs of the hash map against a list of elements in insertion order, in
 which each key stands for the element inserted last. Insertion goes through the
 find-first pattern that callers of the map follow, and a walk may remove any of
 the elements that it is handed.
 */
module HashMapRuns {
  import opened Wrappers
  import opened Arithmetic
  import opened HashTable
  import opened BucketChains
  import opened HashMap

  // ----- the list -----

  ghost predicate DistinctKeys<K(!new)>(app: seq<Element<K>>) {
    forall i, j :: 0 <= i < j < |app| ==> app[i].key != app[j].key
  }

  /** The elements for a key. */
  function Having<K(==)>(app: seq<Element<K>>, k: K): seq<Element<K>> {
    if app == [] then []
    else if Top(app).key == k then Having(Rest(app), k) + [Top(app)]
    else Having(Rest(app), k)
  }

  /** The elements whose keys are not in `drop`, in their order. */
  function Keep<K(==)>(app: seq<Element<K>>, drop: set<K>): seq<Element<K>> {
    if app == [] then []
    else if Top(app).key in drop then Keep(Rest(app), drop)
    else Keep(Rest(app), drop) + [Top(app)]
  }

  function Top<T>(s: seq<T>): T
    requires s != []
  {
    s[|s| - 1]
  }

  function Rest<T>(s: seq<T>): (r: seq<T>)
    requires s != []
    ensures |r| == |s| - 1 && s == r + [Top(s)]
  {
    s[..|s| - 1]
  }

  lemma RestSnoc<T>(s: seq<T>, x: T)
    ensures Rest(s + [x]) == s && Top(s + [x]) == x
  {}

  lemma HavingSnoc<K>(app: seq<Element<K>>, e: Element<K>, k: K)
    ensures Having(app + [e], k) == if e.key == k then Having(app, k) + [e] else Having(app, k)
  {
    RestSnoc(app, e);
  }

  lemma KeepSnoc<K>(app: seq<Element<K>>, e: Element<K>, drop: set<K>)
    ensures Keep(app + [e], drop) == if e.key in drop then Keep(app, drop) else Keep(app, drop) + [e]
  {
    RestSnoc(app, e);
  }

  lemma {:induction false} HavingNone<K>(app: seq<Element<K>>, k: K)
    requires forall e :: e in app ==> e.key != k
    ensures Having(app, k) == []
  {
    if app == [] {
    } else {
      HavingNone(Rest(app), k);
    }
  }

  lemma {:induction false} HavingOne<K(!new)>(app: seq<Element<K>>, e: Element<K>)
    requires e in app && DistinctKeys(app)
    ensures Having(app, e.key) == [e]
  {
    if Top(app) == e {
      HavingNone(Rest(app), e.key);
    } else {
      HavingOne(Rest(app), e);
    }
  }

  lemma {:induction false} HavingKept<K>(app: seq<Element<K>>, drop: set<K>, k: K)
    ensures Having(Keep(app, drop), k) == if k in drop then [] else Having(app, k)
  {
    if app == [] {
    } else {
      HavingKept(Rest(app), drop, k);
      HavingSnoc(Keep(Rest(app), drop), Top(app), k);
    }
  }

  lemma {:induction false} KeepAll<K>(app: seq<Element<K>>, drop: set<K>)
    requires forall e :: e in app ==> e.key !in drop
    ensures Keep(app, drop) == app
  {
    if app == [] {
    } else {
      KeepAll(Rest(app), drop);
    }
  }

  lemma {:induction false} KeepConcat<K>(a: seq<Element<K>>, b: seq<Element<K>>, drop: set<K>)
    ensures Keep(a + b, drop) == Keep(a, drop) + Keep(b, drop)
  {
    if b == [] {
      assert a + b == a;
    } else {
      KeepConcat(a, Rest(b), drop);
      assert a + b == (a + Rest(b)) + [Top(b)];
      KeepSnoc(a + Rest(b), Top(b), drop);
      ConcatAssociates(Keep(a, drop), Keep(Rest(b), drop), [Top(b)]);
    }
  }

  lemma ConcatAssociates<T>(a: seq<T>, b: seq<T>, c: seq<T>)
    ensures (a + b) + c == a + (b + c)
  {}

  lemma {:induction false} KeepMembers<K>(app: seq<Element<K>>, drop: set<K>)
    ensures forall e :: e in Keep(app, drop) ==> e in app && e.key !in drop
  {
    if app == [] {
    } else {
      KeepMembers(Rest(app), drop);
    }
  }

  lemma {:induction false} KeepDistinct<K(!new)>(app: seq<Element<K>>, drop: set<K>)
    requires DistinctKeys(app)
    ensures DistinctKeys(Keep(app, drop))
  {
    if app == [] {
    } else {
      KeepDistinct(Rest(app), drop);
      KeepMembers(Rest(app), drop);
    }
  }

  /** Taking one element out is dropping its key. */
  lemma {:induction false} WithoutIsKeep<K(!new)>(app: seq<Element<K>>, e: Element<K>)
    requires e in app && DistinctKeys(app)
    ensures Without(app, e) == Keep(app, {e.key})
  {
    var i := IndexOf(app, e);
    CutIsKeep(app, i);
  }

  lemma CutIsKeep<K(!new)>(app: seq<Element<K>>, i: nat)
    requires i < |app| && DistinctKeys(app)
    ensures app[..i] + app[i + 1..] == Keep(app, {app[i].key})
  {
    var drop := {app[i].key};
    KeepAll(app[..i], drop);
    KeepAll(app[i + 1..], drop);
    KeepSnoc(app[..i], app[i], drop);
    KeepConcat(app[..i] + [app[i]], app[i + 1..], drop);
    assert app == (app[..i] + [app[i]]) + app[i + 1..];
  }

  // ----- runs -----

  /** A walk removes the elements it is handed whose keys are in `drop`. */
  datatype Op<K(==)> = Ensure(key: K) | Remove(key: K) | Has(key: K) | Walk(drop: set<K>)

  function Dropped<K>(op: Op<K>): set<K> {
    match op
    case Ensure(_) => {}
    case Remove(k) => {k}
    case Has(_) => {}
    case Walk(drop) => drop
  }

  /** The elements after an operation that answered with these. */
  function Next<K(==)>(app: seq<Element<K>>, op: Op<K>, answer: seq<Element<K>>): seq<Element<K>> {
    if op.Ensure? && Having(app, op.key) == [] then app + answer else Keep(app, Dropped(op))
  }

  /**
   What an operation must answer: a lookup the element there is for the key, an
   insertion that element or else a new one for the key, and a walk all elements.
   */
  predicate Right<K(==)>(app: seq<Element<K>>, op: Op<K>, answer: seq<Element<K>>) {
    match op
    case Ensure(k) => if Having(app, k) == [] then |answer| == 1 && answer[0].key == k else answer == Having(app, k)
    case Remove(_) => answer == []
    case Has(k) => answer == Having(app, k)
    case Walk(_) => answer == app
  }

  function Run<K(==)>(app: seq<Element<K>>, ops: seq<Op<K>>, answers: seq<seq<Element<K>>>): seq<Element<K>>
    requires |answers| == |ops|
  {
    if ops == [] then app else Next(Run(app, Rest(ops), Rest(answers)), Top(ops), Top(answers))
  }

  predicate AllRight<K(==)>(app: seq<Element<K>>, ops: seq<Op<K>>, answers: seq<seq<Element<K>>>)
    requires |answers| == |ops|
  {
    ops == [] || (AllRight(app, Rest(ops), Rest(answers)) && Right(Run(app, Rest(ops), Rest(answers)), Top(ops), Top(answers)))
  }

  lemma FoundIsRight<K(!new)>(app: seq<Element<K>>, el: Element<K>)
    requires DistinctKeys(app) && el in app
    ensures Next(app, Ensure(el.key), [el]) == app && Right(app, Ensure(el.key), [el]) && Right(app, Has(el.key), [el])
  {
    HavingOne(app, el);
    KeepAll(app, {});
  }

  lemma InsertedIsRight<K(!new)>(app: seq<Element<K>>, el: Element<K>)
    requires DistinctKeys(app) && forall e :: e in app ==> e.key != el.key
    ensures Next(app, Ensure(el.key), [el]) == app + [el] && Right(app, Ensure(el.key), [el]) && DistinctKeys(app + [el])
  {
    HavingNone(app, el.key);
  }

  lemma MissingIsRight<K>(app: seq<Element<K>>, k: K)
    requires forall e :: e in app ==> e.key != k
    ensures Right(app, Has(k), [])
  {
    HavingNone(app, k);
  }

  lemma ReadOnly<K>(app: seq<Element<K>>, k: K, answer: seq<Element<K>>)
    ensures Next(app, Has(k), answer) == app
  {
    KeepAll(app, {});
  }

  // ----- the operations -----

  /**
   Looks a key up and inserts it if it is missing. Nothing is returned when the
   insertion calls for more buckets than can be counted; the element `el` for the
   key is in the map all the same.
   */
  method FindOrInsert<K(==,!new)>(m: HashMap<K>, key: K) returns (r: Element?<K>, ghost el: Element<K>)
    requires m.Valid() && DistinctKeys(m.app)
    modifies m, m.Repr()
    ensures m.Valid() && DistinctKeys(m.app) && fresh(m.Repr() - old(m.Repr()))
    ensures el in m.app && el.key == key && (el in old(m.app) || fresh(el))
    ensures m.app == Next(old(m.app), Ensure(key), [el]) && Right(old(m.app), Ensure(key), [el])
    ensures r == el || (r == null && el !in old(m.app) && 2 * |old(m.TableValue()).bkts| >= U32)
    ensures Grown(old(m.TableValue()), m.TableValue(), m.app) && (r == null ==> Crowded(old(m.TableValue()), el, m.app))
  {
    hide HashMap.Valid, HashMap.TableValue, Having, Keep, DistinctKeys, Modest, Fresh;
    r := m.Find(key);
    if r != null {
      el := r;
      FoundIsRight(m.app, el);
    } else {
      ghost var before := m.app;
      r, el := InsertMissing(m, key);
      InsertedIsRight(before, el);
    }
  }

  method InsertMissing<K(==,!new)>(m: HashMap<K>, key: K) returns (r: Element?<K>, ghost el: Element<K>)
    requires m.Valid()
    modifies m, m.Repr()
    ensures m.Valid() && fresh(m.Repr() - old(m.Repr()))
    ensures m.app == old(m.app) + [el] && el.key == key && fresh(el)
    ensures r == el || (r == null && 2 * |old(m.TableValue()).bkts| >= U32)
    ensures Grown(old(m.TableValue()), m.TableValue(), m.app) && (r == null ==> Crowded(old(m.TableValue()), el, m.app))
  {
    ghost var t, app := m.TableValue(), m.app;
    ValueIsWf(m);
    r := m.Insert(key, true, true, true);
    el := Last(m.app);
    AddedGrown(t, app, el);
  }

  /** Removing keeps multipliers small, and the number of buckets. */
  ghost predicate Stays<K>(t: Table<K>, t2: Table<K>) {
    (Modest(t) ==> Modest(t2)) && (Fresh(t) ==> Fresh(t2))
  }

  /**
   What operations keep of the table: fewer than 2^28 elements leave multipliers small,
   and with fewer than ten there are 32 buckets as in the beginning.
   */
  ghost predicate Grown<K>(t: Table<K>, t2: Table<K>, app2: seq<Element<K>>) {
    && (Modest(t) && |app2| < MODEST ==> Modest(t2))
    && (Fresh(t) && |app2| < 10 ==> Fresh(t2))
  }

  /** The chain of an element came to ten elements when it was added. */
  ghost predicate Crowded<K>(t: Table<K>, el: Element<K>, app2: seq<Element<K>>) {
    Modest(t) && |app2| < MODEST ==>
      |t.bkts| > 0 && |t.bkts[ToBkt(el.hashv, |t.bkts|)].els| + 1 >= 10 && |app2| >= 10
  }

  /** The value of the table of a map, or of the one that it will get. */
  lemma ValueIsWf<K>(m: HashMap<K>)
    requires m.Valid()
    ensures Wf(m.TableValue(), m.app)
  {
    if m.app == [] {
      assert Pow2(INITIAL_LOG2) == 32;
      assert Partitions(EmptyBuckets<K>(32), []);
    }
  }

  lemma AddedGrown<K>(t: Table<K>, app: seq<Element<K>>, e: Element<K>)
    requires Wf(t, app) && e !in app
    ensures var (t2, ok) := Add(t, e, true); Grown(t, t2, app + [e]) && (ok || Crowded(t, e, app + [e]))
  {
    if Modest(t) && |app| + 1 < MODEST {
      AddStaysModest(t, app, e, true);
      ChainBound(t.bkts, app, ToBkt(e.hashv, |t.bkts|));
    }
    if Fresh(t) && |app| + 1 < 10 {
      FewStayFresh(t, app, e, true);
    }
  }

  lemma DeletedStays<K>(t: Table<K>, app: seq<Element<K>>, e: Element<K>)
    requires Wf(t, app) && e in app
    ensures Stays(t, Delete(t, e))
  {
    DeleteStays(t, e);
  }

  lemma EmptyStays<K>(t: Table<K>)
    ensures Stays(t, Empty(INITIAL_LOG2))
  {
    assert Pow2(INITIAL_LOG2) == 32;
  }

  method RemoveKey<K(==,!new)>(m: HashMap<K>, key: K)
    requires m.Valid() && DistinctKeys(m.app)
    modifies m, m.Repr()
    ensures m.Valid() && DistinctKeys(m.app) && m.Repr() == old(m.Repr())
    ensures m.app == Keep(old(m.app), {key}) && Stays(old(m.TableValue()), m.TableValue())
  {
    ghost var before, t := m.app, m.TableValue();
    ValueIsWf(m);
    ghost var removed := m.Remove(key);
    EmptyStays(t);
    if removed.Some? {
      WithoutIsKeep(before, removed.value);
      DeletedStays(t, before, removed.value);
    } else {
      KeepAll(before, {key});
    }
    KeepDistinct(before, {key});
  }

  lemma WithoutMiddle<K>(app: seq<Element<K>>, i: nat)
    requires i < |app| && Distinct(app)
    ensures app[i] in app && Without(app, app[i]) == app[..i] + app[i + 1..]
  {
    assert IndexOf(app, app[i]) == i;
  }

  method DeleteElement<K(==)>(m: HashMap<K>, el: Element<K>)
    requires m.Valid() && el in m.app
    modifies m, m.Repr()
    ensures m.Valid() && m.app == Without(old(m.app), el) && m.Repr() == old(m.Repr())
    ensures Stays(old(m.TableValue()), m.TableValue())
  {
    hide HashMap.Valid, HashMap.Repr, Stays, Wf;
    ghost var before, t := m.app, m.TableValue();
    ValueIsWf(m);
    EmptyStays(t);
    DeletedStays(t, before, el);
    m.Delete(el);
  }

  /** Removing the element that a walk has just handed out leaves what the walk has yet to hand out as it was. */
  method RemoveCurrent<K(==)>(m: HashMap<K>, it: MapIterator<K>, el: Element<K>, ghost rest: seq<Element<K>>, ghost i: nat)
    requires m.Valid() && i + 1 + |rest| == |m.app| && m.app[i] == el && it.Pending(m, rest) && it.el != null
    modifies m, m.Repr()
    ensures m.Valid() && it.Pending(m, rest) && m.Repr() == old(m.Repr())
    ensures m.app == old(m.app)[..i] + old(m.app)[i + 1..] && Stays(old(m.TableValue()), m.TableValue())
  {
    WithoutMiddle(m.app, i);
    DeleteElement(m, el);
  }

  /** The state of a walk: what it kept, and what it has to hand out from `el` on. */
  ghost predicate Walking<K>(m: HashMap<K>, it: MapIterator<K>, el: Element?<K>, kept: seq<Element<K>>, rest: seq<Element<K>>)
    reads m`app, it
  {
    && m.app == kept + rest && el == At(rest, 0)
    && (el != null ==> it.el != null && it.Pending(m, rest[1..]))
  }

  method RemoveIf<K(==)>(m: HashMap<K>, it: MapIterator<K>, el: Element<K>, remove: bool,
                         ghost kept: seq<Element<K>>, ghost rest: seq<Element<K>>)
    requires m.Valid() && rest != [] && Walking(m, it, el, kept, rest)
    modifies m, m.Repr()
    ensures m.Valid() && m.Repr() == old(m.Repr()) && Stays(old(m.TableValue()), m.TableValue())
    ensures it.Pending(m, rest[1..])
    ensures m.app == (if remove then kept else kept + [el]) + rest[1..]
  {
    hide HashMap.Valid, HashMap.Repr, HashMap.TableValue, Stays;
    ghost var t := m.TableValue();
    ShiftFirst(kept, rest);
    SelfStays(t);
    if remove {
      RemoveCurrent(m, it, el, rest[1..], |kept|);
    }
  }

  /** Removes the element handed out last if it is to be dropped, and asks for the next one. */
  method WalkTurn<K(==)>(m: HashMap<K>, it: MapIterator<K>, el: Element<K>, remove: bool,
                         ghost kept: seq<Element<K>>, ghost rest: seq<Element<K>>)
    returns (nx: Element?<K>)
    requires m.Valid() && rest != [] && Walking(m, it, el, kept, rest)
    modifies m, m.Repr(), it
    ensures m.Valid() && m.Repr() == old(m.Repr()) && Stays(old(m.TableValue()), m.TableValue())
    ensures Walking(m, it, nx, if remove then kept else kept + [el], rest[1..])
  {
    hide HashMap.Valid, HashMap.Repr, HashMap.TableValue, Stays;
    RemoveIf(m, it, el, remove, kept, rest);
    nx := it.Next(m, rest[1..]);
  }

  lemma SelfStays<K>(t: Table<K>)
    ensures Stays(t, t)
  {}

  /**
   Walks over the map and removes what is to be dropped as soon as it is handed
   out: every element is handed out once, in insertion order, and the others stay.
   */
  method WalkAndRemove<K(==,!new)>(m: HashMap<K>, drop: set<K>) returns (handed: seq<Element<K>>)
    requires m.Valid() && DistinctKeys(m.app)
    modifies m, m.Repr()
    ensures m.Valid() && DistinctKeys(m.app) && m.Repr() == old(m.Repr())
    ensures handed == old(m.app) && m.app == Keep(old(m.app), drop) && Stays(old(m.TableValue()), m.TableValue())
  {
    hide HashMap.Valid, HashMap.Repr, HashMap.TableValue;
    ghost var rest, kept := m.app, [];
    handed := [];
    var it, el := Begin(m);
    while el != null
      invariant m.Valid() && m.Repr() == old(m.Repr()) && Walking(m, it, el, kept, rest)
      invariant kept == Keep(handed, drop) && handed + rest == old(m.app) && Stays(old(m.TableValue()), m.TableValue())
      decreases |rest|
    {
      var current: Element<K> := el;
      el := WalkTurn(m, it, current, current.key in drop, kept, rest);
      ShiftFirst(handed, rest);
      KeepSnoc(handed, current, drop);
      handed, kept, rest := handed + [current], if current.key in drop then kept else kept + [current], rest[1..];
    }
    assert handed + [] == handed && kept + [] == kept;
    KeepDistinct(old(m.app), drop);
  }

  method Begin<K(==)>(m: HashMap<K>) returns (it: MapIterator<K>, el: Element?<K>)
    requires m.Valid()
    ensures fresh(it) && Walking(m, it, el, [], m.app)
  {
    hide HashMap.Valid, HashMap.Repr;
    it := new MapIterator();
    el := it.Next(m, m.app);
    assert [] + m.app == m.app;
  }

  method Apply<K(==,!new)>(m: HashMap<K>, op: Op<K>) returns (told: seq<Element<K>>, ghost answer: seq<Element<K>>)
    requires m.Valid() && DistinctKeys(m.app)
    modifies m, m.Repr()
    ensures m.Valid() && DistinctKeys(m.app) && fresh(m.Repr() - old(m.Repr()))
    ensures m.app == Next(old(m.app), op, answer) && Right(old(m.app), op, answer)
    ensures Grown(old(m.TableValue()), m.TableValue(), m.app)
    ensures told == answer || (op.Ensure? && told == [] && |answer| == 1 && Crowded(old(m.TableValue()), answer[0], m.app))
  {
    hide HashMap.Valid, HashMap.Repr, HashMap.TableValue, Right, Next, Grown, Stays, Crowded, DistinctKeys, Keep, Having;
    ghost var t := m.TableValue();
    match op
    case Ensure(k) =>
      var r;
      ghost var el;
      r, el := FindOrInsert(m, k);
      told, answer := if r == null then [] else [r], [el];
    case Remove(k) =>
      RemovingIsRight(m.app, k);
      RemoveKey(m, k);
      StaysGrown(t, m.TableValue(), m.app);
      told, answer := [], [];
    case Has(k) =>
      told := Lookup(m, k);
      answer := told;
      ReadOnly(m.app, k, answer);
      StaysGrown(t, t, m.app);
    case Walk(drop) =>
      WalkingIsRight(m.app, drop);
      told := WalkAndRemove(m, drop);
      StaysGrown(t, m.TableValue(), m.app);
      answer := told;
  }

  lemma RemovingIsRight<K>(app: seq<Element<K>>, k: K)
    ensures Next(app, Remove(k), []) == Keep(app, {k}) && Right(app, Remove(k), [])
  {}

  lemma WalkingIsRight<K>(app: seq<Element<K>>, drop: set<K>)
    ensures Next(app, Walk(drop), app) == Keep(app, drop) && Right(app, Walk(drop), app)
  {}

  lemma StaysGrown<K>(t: Table<K>, t2: Table<K>, app: seq<Element<K>>)
    requires t == t2 || Stays(t, t2)
    ensures Grown(t, t2, app)
  {}

  method Lookup<K(==,!new)>(m: HashMap<K>, k: K) returns (told: seq<Element<K>>)
    requires m.Valid() && DistinctKeys(m.app)
    ensures Right(m.app, Has(k), told)
  {
    var r := m.Find(k);
    if r == null {
      MissingIsRight(m.app, k);
      return [];
    }
    FoundIsRight(m.app, r);
    return [r];
  }

  lemma RunSnoc<K>(app: seq<Element<K>>, ops: seq<Op<K>>, answers: seq<seq<Element<K>>>, op: Op<K>, answer: seq<Element<K>>)
    requires |answers| == |ops| && AllRight(app, ops, answers) && Right(Run(app, ops, answers), op, answer)
    ensures Run(app, ops + [op], answers + [answer]) == Next(Run(app, ops, answers), op, answer)
    ensures AllRight(app, ops + [op], answers + [answer])
  {
    RestSnoc(ops, op);
    RestSnoc(answers, answer);
  }

  /** What the caller was told: the answers, but for an insertion that called for too many buckets. */
  predicate Told<K(==)>(ops: seq<Op<K>>, answers: seq<seq<Element<K>>>, told: seq<seq<Element<K>>>) {
    && |told| == |answers| == |ops|
    && forall i :: 0 <= i < |ops| ==> told[i] == answers[i] || (ops[i].Ensure? && told[i] == [])
  }

  /** At no time in the run are there n elements. */
  predicate Below<K(==)>(app: seq<Element<K>>, ops: seq<Op<K>>, answers: seq<seq<Element<K>>>, n: nat)
    requires |answers| == |ops|
  {
    |Run(app, ops, answers)| < n && (ops == [] || Below(app, Rest(ops), Rest(answers), n))
  }

  /** Every insertion that was refused left ten elements or more. */
  predicate RefusedLate<K(==)>(app: seq<Element<K>>, ops: seq<Op<K>>, answers: seq<seq<Element<K>>>, told: seq<seq<Element<K>>>)
    requires |answers| == |ops| == |told|
  {
    ops == [] ||
    ((Top(told) != Top(answers) ==> |Run(app, ops, answers)| >= 10) && RefusedLate(app, Rest(ops), Rest(answers), Rest(told)))
  }

  /** What a run does to the table. */
  ghost predicate RunGrown<K>(t: Table<K>, t2: Table<K>, app: seq<Element<K>>, ops: seq<Op<K>>,
                              answers: seq<seq<Element<K>>>, told: seq<seq<Element<K>>>)
    requires |answers| == |ops| == |told|
  {
    && (Modest(t) && Below(app, ops, answers, MODEST) ==> Modest(t2) && RefusedLate(app, ops, answers, told))
    && (Fresh(t) && Below(app, ops, answers, 10) ==> Fresh(t2))
  }

  lemma RunGrownSnoc<K>(t: Table<K>, t2: Table<K>, t3: Table<K>, app: seq<Element<K>>, ops: seq<Op<K>>,
                        answers: seq<seq<Element<K>>>, told: seq<seq<Element<K>>>,
                        op: Op<K>, answer: seq<Element<K>>, say: seq<Element<K>>)
    requires |answers| == |ops| == |told| && RunGrown(t, t2, app, ops, answers, told)
    requires var app3 := Next(Run(app, ops, answers), op, answer);
             Grown(t2, t3, app3) && (say != answer ==> |answer| == 1 && Crowded(t2, answer[0], app3))
    ensures RunGrown(t, t3, app, ops + [op], answers + [answer], told + [say])
  {
    RestSnoc(ops, op);
    RestSnoc(answers, answer);
    RestSnoc(told, say);
  }

  lemma RunGrownNothing<K>(t: Table<K>, app: seq<Element<K>>)
    ensures RunGrown(t, t, app, [], [], [])
  {}

  /**
   Over every run of operations the map is the list of elements, and every lookup,
   insertion and walk gives the elements of the list.
   */
  method Execute<K(==,!new)>(m: HashMap<K>, ops: seq<Op<K>>) returns (told: seq<seq<Element<K>>>, ghost answers: seq<seq<Element<K>>>)
    requires m.Valid() && DistinctKeys(m.app)
    modifies m, m.Repr()
    ensures m.Valid() && DistinctKeys(m.app) && Told(ops, answers, told)
    ensures m.app == Run(old(m.app), ops, answers) && AllRight(old(m.app), ops, answers)
    ensures |answers| == |ops| == |told| && RunGrown(old(m.TableValue()), m.TableValue(), old(m.app), ops, answers, told)
  {
    hide *;
    ghost var start, app, table := m.Repr(), m.app, m.TableValue();
    told, answers := [], [];
    RunNothing(app);
    RunGrownNothing(table, app);
    var i := 0;
    while i < |ops|
      invariant 0 <= i <= |ops| && |answers| == i && Told(ops[..i], answers, told)
      invariant m.Valid() && DistinctKeys(m.app) && forall o :: o in m.Repr() ==> o in start || fresh(o)
      invariant m.app == Run(app, ops[..i], answers) && AllRight(app, ops[..i], answers)
      invariant |told| == i && RunGrown(table, m.TableValue(), app, ops[..i], answers, told)
    {
      label L:
      ghost var before := m.TableValue();
      var t;
      ghost var answer;
      t, answer := Apply(m, ops[i]);
      forall o | o in m.Repr() ensures o in start || fresh(o) {
        if old@L(o in m.Repr()) {
        } else {
          assert fresh@L(o);
        }
      }
      RunSnoc(app, ops[..i], answers, ops[i], answer);
      RunGrownSnoc(table, before, m.TableValue(), app, ops[..i], answers, told, ops[i], answer, t);
      ToldSnoc(ops[..i], answers, told, ops[i], answer, t);
      TakeSnoc(ops, i);
      told, answers := told + [t], answers + [answer];
      i := i + 1;
    }
    assert ops[..i] == ops;
  }

  lemma TakeSnoc<T>(s: seq<T>, i: nat)
    requires i < |s|
    ensures s[..i + 1] == s[..i] + [s[i]]
  {}

  lemma RunNothing<K>(app: seq<Element<K>>)
    ensures Run(app, [], []) == app && AllRight(app, [], []) && Told<K>([], [], [])
  {}

  lemma ToldSnoc<K>(ops: seq<Op<K>>, answers: seq<seq<Element<K>>>, told: seq<seq<Element<K>>>,
                    op: Op<K>, answer: seq<Element<K>>, t: seq<Element<K>>)
    requires Told(ops, answers, told) && (t == answer || (op.Ensure? && t == []))
    ensures Told(ops + [op], answers + [answer], told + [t])
  {}

  lemma {:induction false} BelowLess<K>(app: seq<Element<K>>, ops: seq<Op<K>>, answers: seq<seq<Element<K>>>, n: nat, m: nat)
    requires |answers| == |ops| && Below(app, ops, answers, n) && n <= m
    ensures Below(app, ops, answers, m)
  {
    if ops == [] {
    } else {
      BelowLess(app, Rest(ops), Rest(answers), n, m);
    }
  }

  lemma {:induction false} NoneRefused<K>(app: seq<Element<K>>, ops: seq<Op<K>>, answers: seq<seq<Element<K>>>, told: seq<seq<Element<K>>>)
    requires |answers| == |ops| == |told| && Below(app, ops, answers, 10) && RefusedLate(app, ops, answers, told)
    ensures told == answers
  {
    if ops == [] {
    } else {
      NoneRefused(app, Rest(ops), Rest(answers), Rest(told));
    }
  }

  /** A new map that never has ten elements has 32 buckets after any run, and refuses no insertion. */
  lemma FewNeedNoBuckets<K>(t2: Table<K>, ops: seq<Op<K>>, answers: seq<seq<Element<K>>>, told: seq<seq<Element<K>>>)
    requires |answers| == |ops| == |told| && RunGrown(Empty(INITIAL_LOG2), t2, [], ops, answers, told)
    requires Below([], ops, answers, 10)
    ensures |t2.bkts| == 32 && told == answers
  {
    assert Pow2(INITIAL_LOG2) == 32;
    BelowLess([], ops, answers, 10, MODEST);
    NoneRefused([], ops, answers, told);
  }

  // ----- what a run leaves -----

  /** The operation that inserted what a run from the empty map leaves for a key. */
  function Latest<K(==)>(ops: seq<Op<K>>, k: K): (r: Option<nat>)
    ensures r.Some? ==> r.value < |ops| && ops[r.value].Ensure? && ops[r.value].key == k
  {
    if ops == [] || k in Dropped(Top(ops)) then None
    else
      var before := Latest(Rest(ops), k);
      if before.None? && Top(ops).Ensure? && Top(ops).key == k then Some(|ops| - 1) else before
  }

  /** The elements that a run leaves for a key, by the operation that inserted them. */
  function LatestAnswer<K(==)>(ops: seq<Op<K>>, answers: seq<seq<Element<K>>>, k: K): seq<Element<K>>
    requires |answers| == |ops|
  {
    if Latest(ops, k).None? then [] else answers[Latest(ops, k).value]
  }

  lemma HavingNext<K>(app: seq<Element<K>>, op: Op<K>, answer: seq<Element<K>>, k: K)
    requires Right(app, op, answer)
    ensures Having(Next(app, op, answer), k) ==
            if k in Dropped(op) then []
            else if op.Ensure? && op.key == k then answer
            else Having(app, k)
  {
    HavingKept(app, Dropped(op), k);
    if op.Ensure? && Having(app, op.key) == [] {
      assert answer == [answer[0]];
      HavingSnoc(app, answer[0], k);
      assert Having(app, op.key) + [answer[0]] == answer;
    }
  }

  /** After a run a key stands for the element inserted last for it, unless it was removed since. */
  lemma {:induction false} LastWriteWins<K>(ops: seq<Op<K>>, answers: seq<seq<Element<K>>>, k: K)
    requires |answers| == |ops| && AllRight([], ops, answers)
    ensures Having(Run([], ops, answers), k) == LatestAnswer(ops, answers, k)
    ensures |LatestAnswer(ops, answers, k)| == if Latest(ops, k).Some? then 1 else 0
  {
    if ops == [] {
    } else {
      LastWriteWins(Rest(ops), Rest(answers), k);
      HavingNext(Run([], Rest(ops), Rest(answers)), Top(ops), Top(answers), k);
    }
  }

  /** The operation's insertion is still there after the run. */
  predicate Survives<K(==)>(ops: seq<Op<K>>, i: nat)
    requires i < |ops|
  {
    ops[i].Ensure? && Latest(ops, ops[i].key) == Some(i)
  }

  /** Of the first n operations, the elements of those that survive the run. */
  function Survivors<K(==)>(ops: seq<Op<K>>, answers: seq<seq<Element<K>>>, n: nat): seq<Element<K>>
    requires |answers| == |ops| && n <= |ops|
  {
    if n == 0 then []
    else if Survives(ops, n - 1) then Survivors(ops, answers, n - 1) + answers[n - 1]
    else Survivors(ops, answers, n - 1)
  }

  lemma SurvivesStep<K>(ops: seq<Op<K>>, i: nat)
    requires i + 1 < |ops|
    ensures Survives(ops, i) <==> Survives(Rest(ops), i) && ops[i].key !in Dropped(Top(ops))
  {}

  lemma {:induction false} SurvivorsStep<K>(ops: seq<Op<K>>, answers: seq<seq<Element<K>>>, n: nat)
    requires |answers| == |ops| && n < |ops| && AllRight([], ops, answers)
    ensures Survivors(ops, answers, n) == Keep(Survivors(Rest(ops), Rest(answers), n), Dropped(Top(ops)))
  {
    if n == 0 {
    } else {
      SurvivorsStep(ops, answers, n - 1);
      SurvivesStep(ops, n - 1);
      if Survives(Rest(ops), n - 1) {
        LastWriteWins(Rest(ops), Rest(answers), ops[n - 1].key);
        var el := AnswerFor(Rest(ops), Rest(answers), n - 1);
        KeepSnoc(Survivors(Rest(ops), Rest(answers), n - 1), el, Dropped(Top(ops)));
      }
    }
  }

  /** An insertion that survives was answered with one element for its key. */
  lemma AnswerFor<K>(ops: seq<Op<K>>, answers: seq<seq<Element<K>>>, i: nat) returns (el: Element<K>)
    requires |answers| == |ops| && i < |ops| && AllRight([], ops, answers) && Survives(ops, i)
    ensures answers[i] == [el] && el.key == ops[i].key
  {
    LastWriteWins(ops, answers, ops[i].key);
    el := answers[i][0];
    HavingHas(Run([], ops, answers), ops[i].key);
  }

  lemma {:induction false} HavingHas<K>(app: seq<Element<K>>, k: K)
    ensures forall e :: e in Having(app, k) ==> e.key == k
  {
    if app == [] {
    } else {
      HavingHas(Rest(app), k);
    }
  }

  /** What a run leaves is in the order in which it was inserted. */
  lemma {:induction false} InsertionOrder<K>(ops: seq<Op<K>>, answers: seq<seq<Element<K>>>)
    requires |answers| == |ops| && AllRight([], ops, answers)
    ensures Run([], ops, answers) == Survivors(ops, answers, |ops|)
  {
    if ops == [] {
    } else {
      InsertionOrder(Rest(ops), Rest(answers));
      SurvivorsStep(ops, answers, |ops| - 1);
      LastIs(ops, answers);
    }
  }

  lemma LastIs<K>(ops: seq<Op<K>>, answers: seq<seq<Element<K>>>)
    requires |answers| == |ops| > 0 && AllRight([], ops, answers)
    ensures var app := Run([], Rest(ops), Rest(answers));
            Run([], ops, answers) ==
            if Survives(ops, |ops| - 1) then Keep(app, Dropped(Top(ops))) + Top(answers) else Keep(app, Dropped(Top(ops)))
  {
    var app := Run([], Rest(ops), Rest(answers));
    if Top(ops).Ensure? {
      LastWriteWins(Rest(ops), Rest(answers), Top(ops).key);
      KeepAll(app, {});
    }
  }
}
