/**
 libks/map.c: a hash map of heap elements that are linked twice, in the chain
 of their bucket and in the order of insertion. Every operation relinks the
 elements in place; its contract names the new application order and the new
 value of the table.
 */
module HashMap {
  import opened Wrappers
  import opened HashTable
  import opened BucketChains
  import opened UtTable

  ghost function Last<T>(s: seq<T>): T
    requires s != []
  {
    s[|s| - 1]
  }

  /** The application-order links agree with the sequence. */
  ghost predicate InOrder<K>(app: seq<Element<K>>, head: Element?<K>)
    reads (set e | e in app)`next, (set e | e in app)`prev
  {
    && head == At(app, 0)
    && (forall i {:trigger app[i].next} :: 0 <= i < |app| ==> app[i].next == At(app, i + 1))
    && (forall i {:trigger app[i].prev} :: 0 <= i < |app| ==> app[i].prev == At(app, i - 1))
  }

  /** The links of a list around position i, which they skip. */
  ghost predicate Skips<K>(c: seq<Element<K>>, i: int, head: Element?<K>)
    requires 0 <= i < |c|
    reads (set e | e in c)`next, (set e | e in c)`prev
  {
    && head == (if i == 0 then At(c, 1) else At(c, 0))
    && (forall k {:trigger c[k].next} :: 0 <= k < |c| && k != i ==> c[k].next == if k + 1 == i then At(c, i + 1) else At(c, k + 1))
    && (forall k {:trigger c[k].prev} :: 0 <= k < |c| && k != i ==> c[k].prev == if k == i + 1 then At(c, i - 1) else At(c, k - 1))
  }

  lemma SkippedInOrder<K>(c: seq<Element<K>>, i: int, head: Element?<K>)
    requires 0 <= i < |c| && Distinct(c) && Skips(c, i, head)
    ensures c[i] in c && IndexOf(c, c[i]) == i
    ensures InOrder(Without(c, c[i]), head)
  {
    assert IndexOf(c, c[i]) == i;
    CutInOrder(c, i, head);
  }

  lemma CutInOrder<K>(c: seq<Element<K>>, i: int, head: Element?<K>)
    requires 0 <= i < |c| && Distinct(c) && Skips(c, i, head)
    ensures InOrder(c[..i] + c[i + 1..], head)
  {
    var s := c[..i] + c[i + 1..];
    forall j: int | 0 <= j < |s| ensures s[j].next == At(s, j + 1) && s[j].prev == At(s, j - 1) {
      var k := if j < i then j else j + 1;
      assert s[j] == c[k];
    }
  }

  lemma ShiftFirst<T>(a: seq<T>, b: seq<T>)
    requires b != []
    ensures a + b == (a + [b[0]]) + b[1..]
  {}

  /** The map object: a table, and the elements in order of insertion. */
  class HashMap<K(==)> {
    const hash: K -> nat
    var table: UtHashTable?<K>
    var head: Element?<K>
    ghost var app: seq<Element<K>>
    ghost var nodes: set<Element<K>>

    ghost predicate Valid()
      reads this, table, (if table == null then {} else {table.buckets}), nodes
    {
      && (forall e :: e in app ==> e in nodes)
      && InOrder(app, head) && Distinct(app)
      && (forall e :: e in app ==> e.hashv == hash(e.key))
      && (app != [] ==> table != null && table.tail == app[|app| - 1] && table.Valid(app))
    }

    ghost function Repr(): set<object>
      reads this, table
    {
      nodes + if table == null then {} else {table, table.buckets}
    }

    constructor (hash: K -> nat)
      ensures Valid() && app == [] && this.hash == hash
    {
      this.hash := hash;
      table, head, app, nodes := null, null, [], {};
    }

    /**
     Adds an element without looking for its key. No element is added when
     memory for it, or for a first table, is exhausted; when only the doubling
     fails, the element is in the map although nothing is returned.
     */
    method Insert(key: K, elementMemory: bool, tableMemory: bool, bucketMemory: bool) returns (r: Element?<K>)
      requires Valid()
      modifies this, Repr()
      ensures Valid() && fresh(Repr() - old(Repr()))
      ensures (!elementMemory || (old(app) == [] && !tableMemory)) ==> r == null && app == old(app)
      ensures !(!elementMemory || (old(app) == [] && !tableMemory)) ==>
                && app != [] && app == old(app) + [Last(app)] && fresh(Last(app)) && Last(app).key == key
                && (table.Value(), r == Last(app)) == Add(old(TableValue()), Last(app), bucketMemory)
                && (r == Last(app) || r == null)
    {
      hide HashMap.Valid, HashTable.Add;
      if !elementMemory {
        return null;
      }
      var add := new Element(key, hash(key));
      var error := HashAdd(add, tableMemory, bucketMemory);
      r := if error then null else add;
    }

    /** The value of the table, or of the one that the first element makes. */
    ghost function TableValue(): Table<K>
      reads this, table
    {
      if app == [] || table == null then Empty(INITIAL_LOG2) else table.Value()
    }

    method HashAdd(add: Element<K>, tableMemory: bool, bucketMemory: bool) returns (error: bool)
      requires Valid() && add !in app && add.next == null && add.prev == null && add.hashv == hash(add.key)
      modifies this, Repr(), add
      ensures Valid() && fresh(Repr() - old(Repr()) - {add})
      ensures old(app) == [] && !tableMemory ==> error && app == old(app)
      ensures !(old(app) == [] && !tableMemory) ==>
                app == old(app) + [add] && (table.Value(), !error) == Add(old(TableValue()), add, bucketMemory)
    {
      if head == null {
        if !tableMemory {
          return true;
        }
        error := AddFirst(add, bucketMemory);
      } else {
        error := AddNext(add, bucketMemory);
      }
    }

    method AddFirst(add: Element<K>, bucketMemory: bool) returns (error: bool)
      requires Valid() && app == [] && add.next == null && add.prev == null && add.hashv == hash(add.key)
      modifies this, add`hhNext, add`hhPrev
      ensures Valid() && app == [add] && nodes == {add} && fresh(table) && fresh(table.buckets)
      ensures (table.Value(), !error) == Add(Empty(INITIAL_LOG2), add, bucketMemory)
    {
      hide InOrder, UtHashTable.Valid, HashTable.Add, Empty;
      MakeTable(add);
      assert [] + [add] == app;
      error := table.AddToTable(add, bucketMemory, [], nodes);
    }

    method MakeTable(add: Element<K>)
      requires add.next == null && add.prev == null
      modifies this
      ensures app == [add] && nodes == {add} && InOrder(app, head)
      ensures table != null && fresh(table) && fresh(table.buckets) && table.Valid([]) && table.tail == add
      ensures table.Value() == Empty(INITIAL_LOG2)
    {
      table := new UtHashTable(add);
      app, nodes, head := [add], {add}, add;
    }

    method AddNext(add: Element<K>, bucketMemory: bool) returns (error: bool)
      requires Valid() && app != [] && add !in app && add.next == null && add.hashv == hash(add.key)
      modifies this`app, this`nodes, table, table.buckets, add
      modifies nodes`next, nodes`hhNext, nodes`hhPrev
      ensures Valid() && app == old(app) + [add] && nodes == old(nodes) + {add}
      ensures table.buckets == old(table.buckets) || fresh(table.buckets)
      ensures (table.Value(), !error) == Add(old(table.Value()), add, bucketMemory)
    {
      hide InOrder, UtHashTable.Valid, HashTable.Add;
      ghost var before := app;
      AppendList(add);
      app, nodes := app + [add], nodes + {add};
      error := table.AddToTable(add, bucketMemory, before, nodes);
    }

    method AppendList(add: Element<K>)
      requires Valid() && app != [] && add !in app && add.next == null
      modifies add`next, add`prev, nodes`next, table`tail
      ensures InOrder(app + [add], head) && table.tail == add
    {
      add.next := null;
      add.prev := table.tail;
      table.tail.next := add;
      table.tail := add;
      ghost var s := app + [add];
      assert forall i {:trigger s[i].next} :: 0 <= i < |s| ==> s[i] == if i < |app| then app[i] else add;
    }

    /** The element for a key, if there is one. */
    method Find(key: K) returns (r: Element?<K>)
      requires Valid()
      ensures r == null <==> forall e :: e in app ==> e.key != key
      ensures r != null ==> r in app && r.key == key && Lookup(table.Value(), hash(key), key) == Some(r)
    {
      if head == null {
        return null;
      }
      var hashv := hash(key);
      var b := ToBkt(hashv, table.numBuckets);
      ghost var chain := table.bkts[b].els;
      ghost var i := 0;
      r := table.buckets[b].head;
      while r != null
        invariant i <= |chain| && r == At(chain, i)
        invariant FirstMatch(chain, hashv, key) == FirstMatch(chain[i..], hashv, key)
        decreases |chain| - i
      {
        if Matches(r, hashv, key) {
          return;
        }
        r := r.hhNext;
        i := i + 1;
      }
      forall e | e in app ensures e.key != key {
        if e.key == key { assert e in chain && Matches(e, hashv, key); }
      }
    }

    /** Removes the element that a lookup of the key finds. */
    method Remove(key: K) returns (ghost removed: Option<Element<K>>)
      requires Valid()
      modifies this, Repr()
      ensures Valid() && Repr() == old(Repr())
      ensures removed == (if old(app) == [] then None else old(Lookup(table.Value(), hash(key), key)))
      ensures removed.None? ==> app == old(app) && forall e :: e in app ==> e.key != key
      ensures removed.Some? ==> removed.value in old(app) && removed.value.key == key && app == Without(old(app), removed.value)
      ensures TableValue() == if app == [] then Empty(INITIAL_LOG2)
                              else if removed.None? then old(TableValue())
                              else HashTable.Delete(old(TableValue()), removed.value)
    {
      var el := Find(key);
      if el == null {
        return None;
      }
      removed := Some(el);
      Delete(el);
    }

    /** Unlinks an element; the table goes with the last one. */
    method Delete(del: Element<K>)
      requires Valid() && del in app
      modifies this, Repr()
      ensures Valid() && app == Without(old(app), del)
      ensures table == old(table) && Repr() == old(Repr())
      ensures |app| > 0 ==> table != null && table.Value() == HashTable.Delete(old(table.Value()), del)
    {
      Neighbours(del);
      if del.prev == null && del.next == null {
        head := null;
        app := [];
      } else {
        DeleteOne(del);
      }
    }

    lemma Neighbours(del: Element<K>)
      requires Valid() && del in app
      ensures del.prev == null && del.next == null <==> |app| == 1
    {
      var i: int := IndexOf(app, del);
      assert app[i].prev == At(app, i - 1) && app[i].next == At(app, i + 1);
    }

    method DeleteOne(del: Element<K>)
      requires Valid() && del in app && |app| > 1
      modifies this`head, this`app, table, table.buckets
      modifies nodes`next, nodes`prev, nodes`hhNext, nodes`hhPrev
      ensures Valid() && app == Without(old(app), del) && table.buckets == old(table.buckets)
      ensures table.Value() == HashTable.Delete(old(table.Value()), del)
    {
      hide InOrder, Without, UtHashTable.Valid, HashTable.Delete;
      ghost var before := app;
      DropFromOrder(del);
      table.DelInBkt(del, before, nodes);
    }

    method DropFromOrder(del: Element<K>)
      requires Valid() && del in app && |app| > 1
      modifies this`head, this`app, table`tail, nodes`next, nodes`prev
      ensures InOrder(app, head) && app == Without(old(app), del) && Distinct(app)
      ensures forall e :: e in app ==> e in nodes
      ensures forall e :: e in app ==> e.hashv == hash(e.key)
      ensures table.tail == Last(app)
    {
      ghost var before := app;
      WithoutDistinct(app, del);
      app := Without(app, del);
      DeleteInOrder(del, before);
    }

    /** Unlinks an element of several from the application order. */
    method DeleteInOrder(del: Element<K>, ghost before: seq<Element<K>>)
      requires InOrder(before, head) && Distinct(before) && del in before && |before| > 1
      requires table != null && table.tail == before[|before| - 1]
      modifies this`head, table`tail, (set e | e in before)`next, (set e | e in before)`prev
      ensures InOrder(Without(before, del), head)
      ensures table.tail == Last(Without(before, del))
    {
      ghost var i: int := IndexOf(before, del);
      assert before[i].prev == At(before, i - 1) && before[i].next == At(before, i + 1);
      if del == table.tail {
        table.tail := del.prev;
      }
      if del.prev != null {
        del.prev.next := del.next;
      } else {
        head := del.next;
      }
      if del.next != null {
        del.next.prev := del.prev;
      }
      SkippedInOrder(before, i, head);
    }

    /** Frees the map: unlinks every element, reading its successor beforehand. */
    method Free() returns (ghost freed: seq<Element<K>>)
      requires Valid()
      modifies this, Repr()
      ensures Valid() && app == [] && freed == old(app)
    {
      assert head == null <==> app == [];
      hide HashMap.Valid;
      freed := [];
      var el := head;
      while el != null
        invariant Valid() && el == head && (head == null <==> app == [])
        invariant freed + app == old(app)
        invariant Repr() == old(Repr())
        decreases |app|
      {
        ghost var before := app;
        el := FreeFirst();
        ShiftFirst(freed, before);
        freed := freed + [before[0]];
      }
    }

    /** Unlinks the first element and returns the one that followed it. */
    method FreeFirst() returns (nx: Element?<K>)
      requires Valid() && app != []
      modifies this, Repr()
      ensures Valid() && app == old(app)[1..] && nx == head && (head == null <==> app == [])
      ensures Repr() == old(Repr())
    {
      var el := head;
      assert el == app[0] && el.next == At(app, 1);
      assert Without(app, el) == app[1..];
      nx := el.next;
      Delete(el);
    }
  }

  /** The position of a walk over a map: it remembers the successor of the element it hands out. */
  class MapIterator<K(==)> {
    var el: Element?<K>
    var nx: Element?<K>

    constructor ()
      ensures el == null && nx == null
    {
      el, nx := null, null;
    }

    /** The elements still to be handed out. */
    ghost predicate Pending(m: HashMap<K>, rest: seq<Element<K>>)
      reads this, m`app
    {
      && |rest| <= |m.app| && rest == m.app[|m.app| - |rest|..]
      && (if el == null then nx == null && rest == m.app else nx == At(rest, 0))
    }

    /** Hands out the next element in insertion order, or nothing at the end. */
    method Next(m: HashMap<K>, ghost rest: seq<Element<K>>) returns (r: Element?<K>)
      requires m.Valid() && Pending(m, rest)
      modifies this
      ensures m.Valid() && m.Repr() == old(m.Repr())
      ensures r == At(rest, 0) && (r != null ==> el != null)
      ensures Pending(m, if rest == [] then [] else rest[1..])
    {
      if el == null && nx == null {
        var first := m.head;
        if first == null {
          return null;
        }
        assert first == m.app[0] && first.next == At(m.app, 1);
        el := first;
        nx := first.next;
        return first;
      }
      r := nx;
      if r == null {
        return null;
      }
      ghost var i: int := |m.app| - |rest|;
      assert r == m.app[i] && r.next == At(m.app, i + 1);
      nx := r.next;
    }
  }
}
