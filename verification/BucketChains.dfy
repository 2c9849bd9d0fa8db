/**
 The bucket array of libks/map.c: chains of elements linked in both directions,
 relinked in place. The contracts name the new chains.
 */
module BucketChains {
  import opened Arithmetic
  import opened HashTable

  datatype Bucket<K> = Bucket(head: Element?<K>, count: nat, expandMult: nat)

  ghost function At<T>(s: seq<Element<T>>, i: int): Element?<T> {
    if 0 <= i < |s| then s[i] else null
  }

  /** The bucket links of chain c agree with it, in both directions. */
  ghost predicate Linked<K>(c: seq<Element<K>>, head: Element?<K>)
    reads (set e | e in c)`hhNext, (set e | e in c)`hhPrev
  {
    && head == At(c, 0)
    && (forall i {:trigger c[i].hhNext} :: 0 <= i < |c| ==> c[i].hhNext == At(c, i + 1))
    && (forall i {:trigger c[i].hhPrev} :: 0 <= i < |c| ==> c[i].hhPrev == At(c, i - 1))
  }

  /** The forward bucket links of chain c from position p on. */
  ghost predicate Forward<K>(c: seq<Element<K>>, p: nat, first: Element?<K>)
    reads (set e | e in c)`hhNext
  {
    && first == At(c, p)
    && forall i {:trigger c[i].hhNext} :: p <= i < |c| ==> c[i].hhNext == At(c, i + 1)
  }

  ghost function Members<K>(bkts: seq<Chain<K>>): set<Element<K>> {
    set b, e | 0 <= b < |bkts| && e in bkts[b].els :: e
  }

  ghost predicate AllLinked<K>(arr: array<Bucket<K>>, bkts: seq<Chain<K>>)
    reads arr, Members(bkts)`hhNext, Members(bkts)`hhPrev
  {
    arr.Length == |bkts| && forall b :: 0 <= b < |bkts| ==> Linked(bkts[b].els, arr[b].head)
  }

  ghost predicate BucketsOk<K>(arr: array<Bucket<K>>, bkts: seq<Chain<K>>)
    reads arr, Members(bkts)`hhNext, Members(bkts)`hhPrev
  {
    && AllLinked(arr, bkts)
    && forall b :: 0 <= b < |bkts| ==>
         arr[b].count == |bkts[b].els| % U32 && arr[b].expandMult == bkts[b].mult
  }

  method LinkFront<K>(arr: array<Bucket<K>>, b: nat, e: Element<K>, ghost chain: seq<Element<K>>)
    requires b < arr.Length && Linked(chain, arr[b].head) && e !in chain && Distinct(chain)
    modifies arr, e`hhNext, e`hhPrev, (set x | x in chain)`hhPrev
    ensures arr[b] == old(arr[b]).(head := e)
    ensures forall k :: 0 <= k < arr.Length && k != b ==> arr[k] == old(arr[k])
    ensures Linked([e] + chain, e)
  {
    e.hhPrev := null;
    e.hhNext := arr[b].head;
    if arr[b].head != null {
      arr[b].head.hhPrev := e;
    }
    arr[b] := arr[b].(head := e);
    ghost var c := [e] + chain;
    assert forall i {:trigger c[i].hhNext} :: 0 <= i < |c| ==> c[i] == if i == 0 then e else chain[i - 1];
  }

  /** Links e in front of chain b and sets the bucket's counters; the other chains are left alone. */
  method PushFront<K>(arr: array<Bucket<K>>, b: nat, e: Element<K>, count: nat, mult: nat,
                      ghost bkts: seq<Chain<K>>, ghost all: set<Element<K>>)
    requires b < |bkts| && BucketsOk(arr, bkts)
    requires Hashed(bkts, all) && (forall k :: 0 <= k < |bkts| ==> e !in bkts[k].els)
    requires count == (|bkts[b].els| + 1) % U32
    modifies arr, e`hhNext, e`hhPrev, all`hhPrev
    ensures BucketsOk(arr, bkts[b := Chain([e] + bkts[b].els, mult)])
  {
    arr[b] := Bucket(arr[b].head, count, mult);
    LinkFront(arr, b, e, bkts[b].els);
    forall k | 0 <= k < |bkts| && k != b ensures Linked(bkts[k].els, arr[k].head) {
      forall x | x in bkts[k].els ensures x != e && x !in bkts[b].els {
        assert ToBkt(x.hashv, |bkts|) == k;
      }
    }
  }

  lemma CountMore(n: nat)
    ensures (n % U32 + 1) % U32 == (n + 1) % U32
  {
    Counting(n);
  }

  /** Moves one element into its new bucket, and counts it if that bucket is now beyond the ideal length. */
  method Move<K>(arr: array<Bucket<K>>, e: Element<K>, ideal: nat, nonideal0: nat,
                 ghost s: Spread<K>, ghost all: set<Element<K>>) returns (nonideal: nat)
    requires BucketsOk(arr, s.bkts) && nonideal0 == s.nonideal
    requires Hashed(s.bkts, all) && (forall k :: 0 <= k < |s.bkts| ==> e !in s.bkts[k].els)
    modifies arr, e`hhNext, e`hhPrev, all`hhPrev
    ensures BucketsOk(arr, Place(s, e, ideal).bkts)
    ensures nonideal == Place(s, e, ideal).nonideal
  {
    hide Linked, NextMult, ToBkt, Distinct;
    var b := ToBkt(e.hashv, arr.Length);
    var count := (arr[b].count + 1) % U32;
    CountMore(|s.bkts[b].els|);
    nonideal := if count > ideal then (nonideal0 + 1) % U32 else nonideal0;
    PushFront(arr, b, e, count, NextMult(arr[b].expandMult, count, ideal), s.bkts, all);
  }

  /** Moves a whole chain, front to back, and counts the items it makes nonideal. */
  method MoveChain<K>(newbuckets: array<Bucket<K>>, head: Element?<K>, ideal: nat, nonideal0: nat,
                      ghost s0: Spread<K>, ghost els: seq<Element<K>>, ghost all: set<Element<K>>)
    returns (nonideal: nat)
    requires BucketsOk(newbuckets, s0.bkts) && nonideal0 == s0.nonideal
    requires Hashed(s0.bkts, all) && Distinct(els) && (forall e :: e in els ==> e in all)
    requires Lacks(s0.bkts, els) && Forward(els, 0, head)
    modifies newbuckets, (set e | e in els)`hhNext, all`hhPrev
    ensures BucketsOk(newbuckets, PlaceAll(s0, els, ideal).bkts)
    ensures nonideal == PlaceAll(s0, els, ideal).nonideal
  {
    hide BucketsOk, Hashed, Lacks, AddedFrom, Place;
    nonideal := nonideal0;
    ghost var p := 0;
    var thh := head;
    HashedSome(s0.bkts, all);
    assert els[..0] == [];
    while thh != null
      invariant p <= |els| && Forward(els, p, thh)
      invariant nonideal == PlaceAll(s0, els[..p], ideal).nonideal
      invariant BucketsOk(newbuckets, PlaceAll(s0, els[..p], ideal).bkts)
      decreases |els| - p
    {
      var next := thh.hhNext;
      PlaceAllHashed(s0, els, p, ideal, all);
      PlaceAllSnoc(s0, els, p, ideal);
      nonideal := Move(newbuckets, thh, ideal, nonideal, PlaceAll(s0, els[..p], ideal), all);
      p := p + 1;
      thh := next;
    }
    assert els[..p] == els;
  }

  /** The chains from bucket i on can still be walked forward. */
  ghost predicate Unmoved<K>(buckets: array<Bucket<K>>, bkts: seq<Chain<K>>, i: nat)
    reads buckets, Members(bkts)`hhNext
  {
    buckets.Length == |bkts| && forall j :: i <= j < |bkts| ==> Forward(bkts[j].els, 0, buckets[j].head)
  }

  /** Moves the chain of bucket i, those before it having been moved. */
  method MoveBucket<K>(buckets: array<Bucket<K>>, newbuckets: array<Bucket<K>>, i: nat, ideal: nat, nonideal0: nat,
                       ghost start: Spread<K>, ghost bkts: seq<Chain<K>>, ghost all: set<Element<K>>)
    returns (nonideal: nat)
    requires Hashed(bkts, all) && buckets != newbuckets && i < |bkts| && Unmoved(buckets, bkts, i)
    requires Hashed(start.bkts, all) && forall k :: 0 <= k < |start.bkts| ==> start.bkts[k].els == []
    requires nonideal0 == PlaceChains(start, bkts[..i], ideal).nonideal
    requires BucketsOk(newbuckets, PlaceChains(start, bkts[..i], ideal).bkts)
    modifies newbuckets, all`hhNext, all`hhPrev
    ensures Unmoved(buckets, bkts, i + 1)
    ensures nonideal == PlaceChains(start, bkts[..i + 1], ideal).nonideal
    ensures BucketsOk(newbuckets, PlaceChains(start, bkts[..i + 1], ideal).bkts)
  {
    assert Distinct(bkts[i].els) && forall e :: e in bkts[i].els ==> e in all;
    hide BucketsOk, Hashed, Lacks, Distinct, PlaceChains, PlaceAll;
    PlaceChainsHashed(start, bkts, i, ideal, all);
    PlaceChainsSnoc(start, bkts, i, ideal);
    ghost var s := PlaceChains(start, bkts[..i], ideal);
    nonideal := MoveChain(newbuckets, buckets[i].head, ideal, nonideal0, s, bkts[i].els, all);
    forall j | i < j < |bkts| ensures Forward(bkts[j].els, 0, buckets[j].head) {
      ChainsDisjoint(bkts, all, j, i);
    }
  }

  /** Moves all chains, first bucket first. */
  method MoveBuckets<K>(buckets: array<Bucket<K>>, newbuckets: array<Bucket<K>>, ideal: nat,
                        ghost bkts: seq<Chain<K>>, ghost all: set<Element<K>>)
    returns (nonideal: nat)
    requires Hashed(bkts, all) && BucketsOk(buckets, bkts) && buckets != newbuckets
    requires newbuckets.Length == 2 * |bkts| && forall b :: 0 <= b < newbuckets.Length ==> newbuckets[b] == Bucket(null, 0, 0)
    modifies newbuckets, all`hhNext, all`hhPrev
    ensures BucketsOk(newbuckets, PlaceChains(Spread(EmptyBuckets(2 * |bkts|), 0), bkts, ideal).bkts)
    ensures nonideal == PlaceChains(Spread(EmptyBuckets(2 * |bkts|), 0), bkts, ideal).nonideal
  {
    nonideal := 0;
    ghost var start := Spread(EmptyBuckets(2 * |bkts|), 0);
    var i := 0;
    while i < buckets.Length
      invariant 0 <= i <= buckets.Length && Unmoved(buckets, bkts, i)
      invariant nonideal == PlaceChains(start, bkts[..i], ideal).nonideal
      invariant BucketsOk(newbuckets, PlaceChains(start, bkts[..i], ideal).bkts)
    {
      nonideal := MoveBucket(buckets, newbuckets, i, ideal, nonideal, start, bkts, all);
      i := i + 1;
    }
    assert bkts[..i] == bkts;
  }

  method Unlink<K>(arr: array<Bucket<K>>, b: nat, del: Element<K>, ghost bkts: seq<Chain<K>>, ghost all: set<Element<K>>)
    requires b < |bkts| && BucketsOk(arr, bkts) && Hashed(bkts, all) && del in bkts[b].els
    modifies arr, all`hhNext, all`hhPrev
    ensures BucketsOk(arr, bkts[b := Chain(Without(bkts[b].els, del), bkts[b].mult)])
  {
    Counting(|bkts[b].els|);
    UnlinkChain(arr, b, del, bkts[b].els);
    forall k | 0 <= k < |bkts| && k != b ensures Linked(bkts[k].els, arr[k].head) {
      ChainsDisjoint(bkts, all, k, b);
    }
  }

  /** The bucket links of a chain around position i, which they skip. */
  ghost predicate Skipping<K>(c: seq<Element<K>>, i: int, head: Element?<K>)
    requires 0 <= i < |c|
    reads (set e | e in c)`hhNext, (set e | e in c)`hhPrev
  {
    && head == (if i == 0 then At(c, 1) else At(c, 0))
    && (forall k {:trigger c[k].hhNext} :: 0 <= k < |c| && k != i ==> c[k].hhNext == if k + 1 == i then At(c, i + 1) else At(c, k + 1))
    && (forall k {:trigger c[k].hhPrev} :: 0 <= k < |c| && k != i ==> c[k].hhPrev == if k == i + 1 then At(c, i - 1) else At(c, k - 1))
  }

  lemma SkippingLinked<K>(c: seq<Element<K>>, i: int, head: Element?<K>)
    requires 0 <= i < |c| && Skipping(c, i, head)
    ensures Linked(c[..i] + c[i + 1..], head)
  {
    var s := c[..i] + c[i + 1..];
    forall j: int | 0 <= j < |s| ensures s[j].hhNext == At(s, j + 1) && s[j].hhPrev == At(s, j - 1) {
      var k := if j < i then j else j + 1;
      assert s[j] == c[k];
    }
  }

  method UnlinkChain<K>(arr: array<Bucket<K>>, b: nat, del: Element<K>, ghost chain: seq<Element<K>>)
    requires b < arr.Length && Linked(chain, arr[b].head) && Distinct(chain) && del in chain
    modifies arr, (set e | e in chain)`hhNext, (set e | e in chain)`hhPrev
    ensures arr[b] == Bucket(arr[b].head, (old(arr[b].count) + U32 - 1) % U32, old(arr[b].expandMult))
    ensures forall k :: 0 <= k < arr.Length && k != b ==> arr[k] == old(arr[k])
    ensures Linked(Without(chain, del), arr[b].head)
  {
    hide IndexOf, Linked;
    ghost var i: int := IndexOf(chain, del);
    SkipLinks(arr, b, del, chain, i);
    SkippingLinked(chain, i, arr[b].head);
  }

  /** Makes the links around an element skip it. */
  method SkipLinks<K>(arr: array<Bucket<K>>, b: nat, del: Element<K>, ghost chain: seq<Element<K>>, ghost i: int)
    requires b < arr.Length && Linked(chain, arr[b].head) && Distinct(chain) && 0 <= i < |chain| && chain[i] == del
    modifies arr, (set e | e in chain)`hhNext, (set e | e in chain)`hhPrev
    ensures arr[b] == Bucket(arr[b].head, (old(arr[b].count) + U32 - 1) % U32, old(arr[b].expandMult))
    ensures forall k :: 0 <= k < arr.Length && k != b ==> arr[k] == old(arr[k])
    ensures Skipping(chain, i, arr[b].head)
  {
    var bkt := arr[b];
    arr[b] := Bucket(if bkt.head == del then del.hhNext else bkt.head, (bkt.count + U32 - 1) % U32, bkt.expandMult);
    if del.hhPrev != null {
      del.hhPrev.hhNext := del.hhNext;
    }
    if del.hhNext != null {
      del.hhNext.hhPrev := del.hhPrev;
    }
  }
}
