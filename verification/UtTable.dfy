/** The table object of libks/map.c: the bucket array, its counters and the expansion heuristics. */
module UtTable {
  import opened Arithmetic
  import opened HashTable
  import opened BucketChains

  /** The bucket array and its counters. */
  class UtHashTable<K> {
    var buckets: array<Bucket<K>>
    var numBuckets: nat
    var log2NumBuckets: nat
    var numItems: nat
    var tail: Element<K>
    var idealChainMaxlen: nat
    var nonidealItems: nat
    var ineffExpands: nat
    var noexpand: bool
    ghost var bkts: seq<Chain<K>>

    ghost function Value(): Table<K>
      reads this`log2NumBuckets, this`numItems, this`bkts
      reads this`idealChainMaxlen, this`nonidealItems, this`ineffExpands, this`noexpand
    {
      Table(bkts, log2NumBuckets, numItems, idealChainMaxlen, nonidealItems, ineffExpands, noexpand)
    }

    ghost predicate Valid(app: seq<Element<K>>)
      reads this`numBuckets, this`log2NumBuckets, this`numItems, this`buckets, this`bkts
      reads this`idealChainMaxlen, this`nonidealItems, this`ineffExpands, this`noexpand
      reads buckets, (set e | e in app)`hhNext, (set e | e in app)`hhPrev
    {
      && numBuckets == |bkts|
      && Wf(Value(), app)
      && BucketsOk(buckets, bkts)
    }

    constructor (tail: Element<K>)
      ensures Valid([]) && fresh(buckets) && this.tail == tail
      ensures Value() == Empty(INITIAL_LOG2)
    {
      this.tail := tail;
      numBuckets, log2NumBuckets := 32, INITIAL_LOG2;
      numItems, idealChainMaxlen, nonidealItems, ineffExpands, noexpand := 0, 0, 0, 0, false;
      buckets := new Bucket<K>[32](_ => Bucket(null, 0, 0));
      bkts := EmptyBuckets(32);
      new;
      assert Pow2(INITIAL_LOG2) == 32;
    }

    /** Doubles the buckets, unless their number would not fit 32 bits or memory is exhausted. */
    method ExpandBuckets(memory: bool, ghost app: seq<Element<K>>, ghost all: set<Element<K>>) returns (error: bool)
      requires Valid(app) && forall e :: e in app ==> e in all
      modifies this, all`hhNext, all`hhPrev
      ensures Valid(app) && tail == old(tail)
      ensures error == (2 * old(numBuckets) >= U32 || !memory)
      ensures Value() == if error then old(Value()) else Expand(old(Value()))
      ensures if error then buckets == old(buckets) else fresh(buckets)
    {
      var nbuckets := UnsignedMul(U32 - 1, numBuckets, 2);
      if nbuckets.Overflow? || !memory {
        return true;
      }
      var newbuckets := new Bucket<K>[nbuckets.v](_ => Bucket(null, 0, 0));
      Redistribute(newbuckets, app, all);
      return false;
    }

    method Redistribute(newbuckets: array<Bucket<K>>, ghost app: seq<Element<K>>, ghost all: set<Element<K>>)
      requires (forall e :: e in app ==> e in all) && Valid(app) && newbuckets != buckets && 2 * numBuckets < U32
      requires newbuckets.Length == 2 * numBuckets
      requires forall b :: 0 <= b < newbuckets.Length ==> newbuckets[b] == Bucket(null, 0, 0)
      modifies this, newbuckets, all`hhNext, all`hhPrev
      ensures Valid(app) && tail == old(tail) && buckets == newbuckets
      ensures Value() == Expand(old(Value()))
    {
      ghost var t := Value();
      ghost var r := Expand(t);
      PartitionsHashed(bkts, app, all);
      hide Partitions, Hashed, BucketsOk, PlaceChains, IdealLength, ShiftRight, EmptyBuckets;
      ExpandKeepsWf(t, app);
      var ideal := IdealLength(numItems, log2NumBuckets, numBuckets);
      var nonideal := MoveBuckets(buckets, newbuckets, ideal, bkts, all);
      var ineff := if nonideal > ShiftRight(numItems, 1) then (ineffExpands + 1) % U32 else 0;
      ExpandFields(t, ideal, nonideal, ineff);
      Install(newbuckets, ideal, nonideal, ineff, r, app);
    }

    method Install(newbuckets: array<Bucket<K>>, ideal: nat, nonideal: nat, ineff: nat, ghost r: Table<K>, ghost app: seq<Element<K>>)
      requires |r.bkts| == 2 * numBuckets && Wf(r, app) && BucketsOk(newbuckets, r.bkts)
      requires r == Table(r.bkts, log2NumBuckets + 1, numItems, ideal, nonideal, ineff, noexpand || ineff > 1)
      modifies this
      ensures Valid(app) && tail == old(tail) && buckets == newbuckets && Value() == r
    {
      hide Wf, BucketsOk;
      numBuckets := numBuckets * 2;
      log2NumBuckets := log2NumBuckets + 1;
      buckets := newbuckets;
      idealChainMaxlen, nonidealItems, ineffExpands := ideal, nonideal, ineff;
      if ineffExpands > 1 {
        noexpand := true;
      }
      bkts := r.bkts;
    }

    /** Links a new element in front of its chain, and doubles the buckets if the chain got long. */
    method AddToTable(add: Element<K>, memory: bool, ghost app: seq<Element<K>>, ghost all: set<Element<K>>) returns (error: bool)
      requires Valid(app) && add !in app && add in all && forall e :: e in app ==> e in all
      modifies this, buckets, all`hhNext, all`hhPrev
      ensures Valid(app + [add]) && tail == old(tail)
      ensures (Value(), !error) == Add(old(Value()), add, memory)
      ensures buckets == old(buckets) || fresh(buckets)
    {
      ghost var t := Value();
      var due := PrependInPlace(add, app, all);
      error := false;
      if due {
        error := ExpandBuckets(memory, app + [add], all);
      }
    }

    method PrependInPlace(add: Element<K>, ghost app: seq<Element<K>>, ghost all: set<Element<K>>) returns (due: bool)
      requires Valid(app) && add !in app && add in all && forall e :: e in app ==> e in all
      modifies this, buckets, all`hhNext, all`hhPrev
      ensures Valid(app + [add]) && tail == old(tail) && buckets == old(buckets)
      ensures Value() == Prepend(old(Value()), add)
      ensures due == ExpansionDue(old(Value()), add)
    {
      ghost var t := Value();
      var b := ToBkt(add.hashv, numBuckets);
      Counting(|bkts[b].els|);
      PartitionsHashed(bkts, app, all);
      assert forall k :: 0 <= k < |bkts| ==> add !in bkts[k].els;
      PrependKeepsWf(t, app, add);
      hide Partitions, Hashed, ToBkt, Distinct;
      var count := (buckets[b].count + 1) % U32;
      var mult := buckets[b].expandMult;
      due := count >= Threshold(mult) && !noexpand;
      assert due == ExpansionDue(t, add);
      PushFront(buckets, b, add, count, mult, bkts, all);
      SetItems((numItems + 1) % U32, Prepend(t, add), app + [add]);
    }

    /** Stores a new item count once the chains have been relinked. */
    method SetItems(n: nat, ghost r: Table<K>, ghost app: seq<Element<K>>)
      requires Wf(r, app) && BucketsOk(buckets, r.bkts)
      requires |r.bkts| == numBuckets && r == Value().(bkts := r.bkts, numItems := n)
      modifies this
      ensures Valid(app) && tail == old(tail) && buckets == old(buckets) && Value() == r
    {
      numItems := n;
      bkts := r.bkts;
    }

    /** Unlinks an element from its chain. */
    method DelInBkt(del: Element<K>, ghost app: seq<Element<K>>, ghost all: set<Element<K>>)
      requires Valid(app) && del in app && Distinct(app) && forall e :: e in app ==> e in all
      modifies this, buckets, all`hhNext, all`hhPrev
      ensures Valid(Without(app, del)) && tail == old(tail) && buckets == old(buckets)
      ensures Value() == Delete(old(Value()), del)
    {
      ghost var t := Value();
      var b := ToBkt(del.hashv, numBuckets);
      PartitionsHashed(bkts, app, all);
      assert del in bkts[b].els;
      hide Partitions, Hashed, BucketsOk, Without, ToBkt, Distinct;
      DeleteKeepsWf(t, app, del);
      Unlink(buckets, b, del, bkts, all);
      SetItems((numItems + U32 - 1) % U32, Delete(t, del), Without(app, del));
    }
  }
}
