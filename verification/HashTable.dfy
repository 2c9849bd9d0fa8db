/**
 The bucket side of the hash map of libks/map.c, on values: how an element is
 added to a chain, how the buckets are doubled and how an element is deleted.
 The class HashMap relinks the real elements and is proved against these
 functions. The hash of a key is whatever the element carries in `hashv`.
 */
module HashTable {
  import opened Arithmetic
  import opened Wrappers

  const INITIAL_LOG2: nat := 5
  const CAPACITY_THRESH: nat := 10

  /** A bound for multipliers and elements below which nothing wraps around. */
  const MODEST: nat := 0x1000_0000

  /** One map element: links in application order and links in its bucket chain. */
  class Element<K> {
    var prev: Element?<K>
    var next: Element?<K>
    var hhPrev: Element?<K>
    var hhNext: Element?<K>
    const key: K
    const hashv: nat

    constructor (key: K, hashv: nat)
      ensures this.key == key && this.hashv == hashv
      ensures prev == null && next == null && hhPrev == null && hhNext == null
    {
      this.key, this.hashv := key, hashv;
      prev, next, hhPrev, hhNext := null, null, null, null;
    }
  }

  /** A bucket: its chain from the head on, and its expansion multiplier. */
  datatype Chain<K> = Chain(els: seq<Element<K>>, mult: nat)

  /** The value of a hash table. Counters are 32 bits wide. */
  datatype Table<K> = Table(bkts: seq<Chain<K>>, log2: nat, numItems: nat,
                            ideal: nat, nonideal: nat, ineff: nat, noexpand: bool)

  /** Bucket index of a hash among n buckets. */
  function ToBkt(hashv: nat, n: nat): (b: nat)
    requires n > 0
    ensures b < n
  {
    BitAnd(hashv, n - 1)
  }

  ghost predicate Distinct<T>(s: seq<T>) {
    forall i, j :: 0 <= i < j < |s| ==> s[i] != s[j]
  }

  /** Each element of `app` is in the chain its hash selects, once, and nothing else is. */
  ghost predicate Partitions<K>(bkts: seq<Chain<K>>, app: seq<Element<K>>) {
    && |bkts| > 0
    && (forall b :: 0 <= b < |bkts| ==> Distinct(bkts[b].els))
    && (forall b, e :: 0 <= b < |bkts| && e in bkts[b].els ==> e in app && ToBkt(e.hashv, |bkts|) == b)
    && (forall e :: e in app ==> e in bkts[ToBkt(e.hashv, |bkts|)].els)
  }

  ghost predicate Wf<K>(t: Table<K>, app: seq<Element<K>>) {
    && |t.bkts| == Pow2(t.log2)
    && |t.bkts| < U32
    && Partitions(t.bkts, app)
    && t.numItems == |app| % U32
  }

  function Empty<K>(log2: nat): (t: Table<K>)
    ensures |t.bkts| == Pow2(log2) && forall b :: 0 <= b < |t.bkts| ==> t.bkts[b] == Chain([], 0)
  {
    Table(EmptyBuckets(Pow2(log2)), log2, 0, 0, 0, 0, false)
  }

  function EmptyBuckets<K>(n: nat): (r: seq<Chain<K>>)
    ensures |r| == n && forall b :: 0 <= b < n ==> r[b] == Chain([], 0)
  {
    seq(n, _ => Chain([], 0))
  }

  // ----- expansion -----

  /** Progress of an expansion: the new buckets and the count of nonideal items. */
  datatype Spread<K> = Spread(bkts: seq<Chain<K>>, nonideal: nat)

  /** The multiplier of a bucket whose chain has just grown to `count`. */
  function NextMult(mult: nat, count: nat, ideal: nat): nat {
    if count > ideal && count > (mult * ideal) % U32 then (mult + 1) % U32 else mult
  }

  /** Moves one element to the front of its new chain. */
  function Place<K>(s: Spread<K>, e: Element<K>, ideal: nat): (r: Spread<K>)
    requires |s.bkts| > 0
    ensures |r.bkts| == |s.bkts|
  {
    var b := ToBkt(e.hashv, |s.bkts|);
    var c := s.bkts[b];
    var count := (|c.els| + 1) % U32;
    Spread(s.bkts[b := Chain([e] + c.els, NextMult(c.mult, count, ideal))],
           if count > ideal then (s.nonideal + 1) % U32 else s.nonideal)
  }

  function PlaceAll<K>(s: Spread<K>, es: seq<Element<K>>, ideal: nat): (r: Spread<K>)
    requires |s.bkts| > 0
    ensures |r.bkts| == |s.bkts|
  {
    if es == [] then s
    else Place(PlaceAll(s, es[..|es| - 1], ideal), es[|es| - 1], ideal)
  }

  /** Moves the elements of all given chains, first chain first. */
  function PlaceChains<K>(s: Spread<K>, cs: seq<Chain<K>>, ideal: nat): (r: Spread<K>)
    requires |s.bkts| > 0
    ensures |r.bkts| == |s.bkts|
  {
    if cs == [] then s
    else PlaceAll(PlaceChains(s, cs[..|cs| - 1], ideal), cs[|cs| - 1].els, ideal)
  }

  lemma PlaceAllSnoc<K>(s: Spread<K>, es: seq<Element<K>>, p: nat, ideal: nat)
    requires |s.bkts| > 0 && p < |es|
    ensures PlaceAll(s, es[..p + 1], ideal) == Place(PlaceAll(s, es[..p], ideal), es[p], ideal)
  {
    assert es[..p + 1][..p] == es[..p];
  }

  lemma PlaceChainsSnoc<K>(s: Spread<K>, cs: seq<Chain<K>>, p: nat, ideal: nat)
    requires |s.bkts| > 0 && p < |cs|
    ensures PlaceChains(s, cs[..p + 1], ideal) == PlaceAll(PlaceChains(s, cs[..p], ideal), cs[p].els, ideal)
  {
    assert cs[..p + 1][..p] == cs[..p];
  }

  /** Chains of elements of `all`, each element in the chain its hash selects and once. */
  ghost predicate Hashed<K>(bkts: seq<Chain<K>>, all: set<Element<K>>) {
    && |bkts| > 0
    && (forall b :: 0 <= b < |bkts| ==> Distinct(bkts[b].els))
    && (forall b, e :: 0 <= b < |bkts| && e in bkts[b].els ==> e in all && ToBkt(e.hashv, |bkts|) == b)
  }

  lemma PartitionsHashed<K>(bkts: seq<Chain<K>>, app: seq<Element<K>>, all: set<Element<K>>)
    requires Partitions(bkts, app) && forall e :: e in app ==> e in all
    ensures Hashed(bkts, all)
  {}

  /** No bucket holds one of these elements. */
  ghost predicate Lacks<K>(bkts: seq<Chain<K>>, els: seq<Element<K>>) {
    forall k, e :: 0 <= k < |bkts| && e in bkts[k].els ==> e !in els
  }

  /** The buckets hold what they held, or elements that were added. */
  ghost predicate AddedFrom<K>(before: seq<Chain<K>>, after: seq<Chain<K>>, els: seq<Element<K>>) {
    |after| == |before| && forall k, e :: 0 <= k < |before| && e in after[k].els ==> e in before[k].els || e in els
  }

  lemma PlaceHashed<K>(s: Spread<K>, e: Element<K>, ideal: nat, all: set<Element<K>>)
    requires Hashed(s.bkts, all) && e in all && forall k :: 0 <= k < |s.bkts| ==> e !in s.bkts[k].els
    ensures Hashed(Place(s, e, ideal).bkts, all)
  {}

  lemma PlaceAdds<K>(before: seq<Chain<K>>, s: Spread<K>, els: seq<Element<K>>, e: Element<K>, ideal: nat)
    requires |before| > 0 && AddedFrom(before, s.bkts, els)
    ensures AddedFrom(before, Place(s, e, ideal).bkts, els + [e])
  {}

  /** An element still to be moved is not there yet. */
  lemma NotYet<K>(before: seq<Chain<K>>, after: seq<Chain<K>>, els: seq<Element<K>>, p: nat)
    requires p < |els| && Distinct(els) && Lacks(before, els) && AddedFrom(before, after, els[..p])
    ensures forall k :: 0 <= k < |after| ==> els[p] !in after[k].els
  {
    assert els[p] in els && els[p] !in els[..p];
  }

  /** While a chain is moved, the new buckets stay hashed and hold none of the elements still to be moved. */
  lemma {:induction false} PlaceAllHashed<K>(s0: Spread<K>, els: seq<Element<K>>, p: nat, ideal: nat, all: set<Element<K>>)
    requires Hashed(s0.bkts, all) && Distinct(els) && (forall e :: e in els ==> e in all)
    requires Lacks(s0.bkts, els) && p <= |els|
    ensures Hashed(PlaceAll(s0, els[..p], ideal).bkts, all)
    ensures AddedFrom(s0.bkts, PlaceAll(s0, els[..p], ideal).bkts, els[..p])
    ensures p < |els| ==> forall k :: 0 <= k < |s0.bkts| ==> els[p] !in PlaceAll(s0, els[..p], ideal).bkts[k].els
  {
    hide PlaceAll, Place, Hashed, AddedFrom, Lacks, Distinct;
    HashedSome(s0.bkts, all);
    if p == 0 {
      PlaceNone(s0, els, ideal);
    } else {
      var s := PlaceAll(s0, els[..p - 1], ideal);
      PlaceAllHashed(s0, els, p - 1, ideal, all);
      PlaceAllSnoc(s0, els, p - 1, ideal);
      PlaceHashed(s, els[p - 1], ideal, all);
      PlaceAdds(s0.bkts, s, els[..p - 1], els[p - 1], ideal);
      assert els[..p] == els[..p - 1] + [els[p - 1]];
    }
    if p < |els| {
      NotYet(s0.bkts, PlaceAll(s0, els[..p], ideal).bkts, els, p);
    }
  }

  lemma HashedSome<K>(bkts: seq<Chain<K>>, all: set<Element<K>>)
    requires Hashed(bkts, all)
    ensures |bkts| > 0
  {}

  lemma PlaceNone<K>(s0: Spread<K>, els: seq<Element<K>>, ideal: nat)
    requires |s0.bkts| > 0
    ensures PlaceAll(s0, els[..0], ideal) == s0 && AddedFrom(s0.bkts, s0.bkts, els[..0])
  {}

  lemma ChainsDisjoint<K>(bkts: seq<Chain<K>>, all: set<Element<K>>, i: nat, j: nat)
    requires Hashed(bkts, all) && i < |bkts| && j < |bkts| && i != j
    ensures forall e :: e in bkts[i].els ==> e !in bkts[j].els
  {
    forall e | e in bkts[i].els ensures e !in bkts[j].els {
      assert ToBkt(e.hashv, |bkts|) == i;
    }
  }

  lemma StillWithout<K>(before: seq<Chain<K>>, after: seq<Chain<K>>, els: seq<Element<K>>, others: seq<Element<K>>)
    requires Lacks(before, others) && AddedFrom(before, after, els) && forall e :: e in els ==> e !in others
    ensures Lacks(after, others)
  {}

  /** While the chains are moved, the new buckets stay hashed and hold nothing of the chains still to be moved. */
  lemma {:induction false} PlaceChainsHashed<K>(s0: Spread<K>, bkts: seq<Chain<K>>, i: nat, ideal: nat, all: set<Element<K>>)
    requires Hashed(s0.bkts, all) && (forall k :: 0 <= k < |s0.bkts| ==> s0.bkts[k].els == [])
    requires Hashed(bkts, all) && i <= |bkts|
    ensures Hashed(PlaceChains(s0, bkts[..i], ideal).bkts, all)
    ensures forall j :: i <= j < |bkts| ==> Lacks(PlaceChains(s0, bkts[..i], ideal).bkts, bkts[j].els)
  {
    assert |s0.bkts| > 0;
    if i == 0 {
    } else {
      var els := bkts[i - 1].els;
      assert Distinct(els) && forall e :: e in els ==> e in all;
      hide PlaceChains, PlaceAll, Hashed, Distinct, Lacks, AddedFrom;
      var s := PlaceChains(s0, bkts[..i - 1], ideal);
      PlaceChainsHashed(s0, bkts, i - 1, ideal, all);
      PlaceChainsSnoc(s0, bkts, i - 1, ideal);
      PlaceAllHashed(s, els, |els|, ideal, all);
      assert els[..|els|] == els;
      forall j | i <= j < |bkts| ensures Lacks(PlaceChains(s0, bkts[..i], ideal).bkts, bkts[j].els) {
        ChainsDisjoint(bkts, all, i - 1, j);
        StillWithout(s.bkts, PlaceAll(s, els, ideal).bkts, els, bkts[j].els);
      }
    }
  }

  /** The ideal chain length after doubling, by shift and mask. */
  function IdealLength(numItems: nat, log2: nat, numBuckets: nat): nat
    requires numBuckets > 0
  {
    ShiftRight(numItems, log2 + 1) + if BitAnd(numItems, numBuckets * 2 - 1) != 0 then 1 else 0
  }

  function Expand<K>(t: Table<K>): (r: Table<K>)
    requires |t.bkts| > 0
    ensures |r.bkts| == 2 * |t.bkts| && r.log2 == t.log2 + 1 && r.numItems == t.numItems
  {
    var ideal := IdealLength(t.numItems, t.log2, |t.bkts|);
    var s := PlaceChains(Spread(EmptyBuckets(2 * |t.bkts|), 0), t.bkts, ideal);
    var ineff := if s.nonideal > ShiftRight(t.numItems, 1) then (t.ineff + 1) % U32 else 0;
    Table(s.bkts, t.log2 + 1, t.numItems, ideal, s.nonideal, ineff, t.noexpand || ineff > 1)
  }

  lemma ExpandFields<K>(t: Table<K>, ideal: nat, nonideal: nat, ineff: nat)
    requires |t.bkts| > 0 && ideal == IdealLength(t.numItems, t.log2, |t.bkts|)
    requires nonideal == PlaceChains(Spread(EmptyBuckets(2 * |t.bkts|), 0), t.bkts, ideal).nonideal
    requires ineff == if nonideal > ShiftRight(t.numItems, 1) then (t.ineff + 1) % U32 else 0
    ensures Expand(t) == Table(PlaceChains(Spread(EmptyBuckets(2 * |t.bkts|), 0), t.bkts, ideal).bkts,
                               t.log2 + 1, t.numItems, ideal, nonideal, ineff, t.noexpand || ineff > 1)
  {}

  /** The elements of `es` that belong in bucket b of n. */
  function Select<K>(es: seq<Element<K>>, b: nat, n: nat): (r: seq<Element<K>>)
    requires n > 0
    ensures forall e :: e in r ==> e in es && ToBkt(e.hashv, n) == b
    ensures forall e :: e in es && ToBkt(e.hashv, n) == b ==> e in r
  {
    if es == [] then []
    else
      var r := Select(es[..|es| - 1], b, n);
      assert es == es[..|es| - 1] + [es[|es| - 1]];
      if ToBkt(es[|es| - 1].hashv, n) == b then r + [es[|es| - 1]] else r
  }

  function Reverse<T>(s: seq<T>): (r: seq<T>)
    ensures |r| == |s|
    ensures forall i :: 0 <= i < |s| ==> r[i] == s[|s| - 1 - i]
  {
    if s == [] then [] else [s[|s| - 1]] + Reverse(s[..|s| - 1])
  }

  lemma {:induction false} SelectDistinct<K>(es: seq<Element<K>>, b: nat, n: nat)
    requires n > 0 && Distinct(es)
    ensures Distinct(Select(es, b, n))
  {
    if es == [] {
    } else {
      SelectDistinct(es[..|es| - 1], b, n);
    }
  }

  lemma PlaceBucket<K>(s: Spread<K>, e: Element<K>, ideal: nat, b: nat)
    requires b < |s.bkts|
    ensures Place(s, e, ideal).bkts[b].els == if ToBkt(e.hashv, |s.bkts|) == b then [e] + s.bkts[b].els else s.bkts[b].els
  {}

  lemma ReverseSnoc<T>(r: seq<T>, x: T)
    ensures Reverse(r + [x]) == [x] + Reverse(r)
  {
    assert (r + [x])[..|r|] == r;
  }

  lemma SelectNext<K>(es: seq<Element<K>>, b: nat, n: nat)
    requires n > 0 && es != []
    ensures var r, last := Select(es[..|es| - 1], b, n), es[|es| - 1];
            Select(es, b, n) == if ToBkt(last.hashv, n) == b then r + [last] else r
  {}

  /** Moving a chain puts its matching elements, reversed, before what a bucket already holds. */
  lemma {:induction false} PlaceAllChain<K>(s: Spread<K>, es: seq<Element<K>>, ideal: nat, b: nat)
    requires b < |s.bkts|
    ensures PlaceAll(s, es, ideal).bkts[b].els == Reverse(Select(es, b, |s.bkts|)) + s.bkts[b].els
  {
    if es == [] {
    } else {
      hide *;
      var m := |es| - 1;
      var r, last, before := Select(es[..m], b, |s.bkts|), es[m], PlaceAll(s, es[..m], ideal);
      PlaceAllSnoc(s, es, m, ideal);
      assert es[..m + 1] == es;
      SelectNext(es, b, |s.bkts|);
      PlaceAllChain(s, es[..m], ideal, b);
      PlaceBucket(before, last, ideal, b);
      ReverseSnoc(r, last);
      PrependTwice(last, Reverse(r), s.bkts[b].els);
    }
  }

  lemma PrependTwice<T>(x: T, r: seq<T>, s: seq<T>)
    ensures ([x] + r) + s == [x] + (r + s)
  {}

  /** Elements of chain j go to no bucket other than j and j + n. */
  lemma SplitTargets(hashv: nat, n: nat, k: nat)
    requires n == Pow2(k)
    ensures ToBkt(hashv, n) == hashv % n
    ensures ToBkt(hashv, 2 * n) == hashv % (2 * n)
    ensures ToBkt(hashv, 2 * n) == ToBkt(hashv, n) || ToBkt(hashv, 2 * n) == ToBkt(hashv, n) + n
    ensures ToBkt(hashv, 2 * n) % n == ToBkt(hashv, n)
  {
    MaskIsMod(hashv, k);
    MaskIsMod(hashv, k + 1);
    DoubledMod(hashv, n);
  }

  lemma SelectOther<K>(es: seq<Element<K>>, j: nat, b: nat, n: nat, k: nat)
    requires n == Pow2(k) && b % n != j
    requires forall e :: e in es ==> ToBkt(e.hashv, n) == j
    ensures Select(es, b, 2 * n) == []
  {
    forall e | e in es ensures ToBkt(e.hashv, 2 * n) != b {
      SplitTargets(e.hashv, n, k);
    }
  }

  /** After moving the first m chains, bucket b holds chain b % n split, if that chain was moved. */
  lemma {:induction false} PlaceChainsBucket<K>(cs: seq<Chain<K>>, n: nat, k: nat, ideal: nat, b: nat)
    requires n == Pow2(k) && |cs| <= n && b < 2 * n
    requires forall j, e :: 0 <= j < |cs| && e in cs[j].els ==> ToBkt(e.hashv, n) == j
    ensures 0 <= b % n < n
    ensures PlaceChains(Spread(EmptyBuckets(2 * n), 0), cs, ideal).bkts[b].els
         == if b % n < |cs| then Reverse(Select(cs[b % n].els, b, 2 * n)) else []
  {
    DivMod(b, n);
    if cs == [] {
    } else {
      var m := |cs| - 1;
      var before := PlaceChains(Spread(EmptyBuckets(2 * n), 0), cs[..m], ideal);
      PlaceChainsBucket(cs[..m], n, k, ideal, b);
      PlaceAllChain(before, cs[m].els, ideal, b);
      if b % n != m {
        SelectOther(cs[m].els, m, b, n, k);
      }
    }
  }

  /**
   Doubling splits old chain j into exactly the new chains j and j + n: new
   chain b is old chain b mod n, cut down to the elements that hash to b, in
   reverse order.
   */
  lemma ExpandSplits<K>(t: Table<K>, app: seq<Element<K>>, b: nat)
    requires Wf(t, app) && b < 2 * |t.bkts|
    ensures 0 <= b % |t.bkts| < |t.bkts|
    ensures Expand(t).bkts[b].els == Reverse(Select(t.bkts[b % |t.bkts|].els, b, 2 * |t.bkts|))
  {
    PlaceChainsBucket(t.bkts, |t.bkts|, t.log2, IdealLength(t.numItems, t.log2, |t.bkts|), b);
  }

  /** Doubling loses and duplicates no element, and the bucket count stays 2^log2. */
  lemma ExpandKeepsWf<K>(t: Table<K>, app: seq<Element<K>>)
    requires Wf(t, app) && 2 * |t.bkts| < U32
    ensures Wf(Expand(t), app)
  {
    var n := |t.bkts|;
    var r := Expand(t).bkts;
    forall b | 0 <= b < 2 * n ensures Distinct(r[b].els) {
      ExpandSplits(t, app, b);
      SelectDistinct(t.bkts[b % n].els, b, 2 * n);
    }
    forall b, e | 0 <= b < 2 * n && e in r[b].els
      ensures e in app && ToBkt(e.hashv, 2 * n) == b
    {
      ExpandSplits(t, app, b);
      ReverseMembers(Select(t.bkts[b % n].els, b, 2 * n), e);
    }
    forall e | e in app ensures e in r[ToBkt(e.hashv, 2 * n)].els {
      var b := ToBkt(e.hashv, 2 * n);
      SplitTargets(e.hashv, n, t.log2);
      ExpandSplits(t, app, b);
      ReverseMembers(Select(t.bkts[b % n].els, b, 2 * n), e);
    }
  }

  lemma ReverseMembers<T>(s: seq<T>, x: T)
    ensures x in Reverse(s) <==> x in s
  {
    if x in s {
      var i :| 0 <= i < |s| && s[i] == x;
      assert Reverse(s)[|s| - 1 - i] == x;
    }
  }

  // ----- adding and deleting -----

  /** The element in front of its chain, and counted. */
  function Prepend<K>(t: Table<K>, e: Element<K>): (r: Table<K>)
    requires |t.bkts| > 0
    ensures |r.bkts| == |t.bkts|
  {
    var b := ToBkt(e.hashv, |t.bkts|);
    t.(bkts := t.bkts[b := Chain([e] + t.bkts[b].els, t.bkts[b].mult)], numItems := (t.numItems + 1) % U32)
  }

  /** The chain length that triggers a doubling. */
  function Threshold(mult: nat): nat {
    ((mult + 1) * CAPACITY_THRESH) % U32
  }

  /** Whether adding e makes its chain long enough to double the buckets. */
  predicate ExpansionDue<K>(t: Table<K>, e: Element<K>)
    requires |t.bkts| > 0
  {
    var c := t.bkts[ToBkt(e.hashv, |t.bkts|)];
    (|c.els| + 1) % U32 >= Threshold(c.mult) && !t.noexpand
  }

  /**
   Adds an element to its chain and doubles the buckets when the chain is
   long. The second result is false when doubling was due but the bucket count
   does not fit 32 bits or memory is exhausted; the element is added all the same.
   */
  function Add<K>(t: Table<K>, e: Element<K>, memory: bool): (r: (Table<K>, bool))
    requires |t.bkts| > 0
  {
    if !ExpansionDue(t, e) then (Prepend(t, e), true)
    else if 2 * |t.bkts| >= U32 || !memory then (Prepend(t, e), false)
    else (Expand(Prepend(t, e)), true)
  }

  function IndexOf<T(==)>(s: seq<T>, x: T): (i: nat)
    requires x in s
    ensures i < |s| && s[i] == x && x !in s[..i]
  {
    if s[0] == x then 0 else 1 + IndexOf(s[1..], x)
  }

  function Without<T(==)>(s: seq<T>, x: T): (r: seq<T>)
    requires x in s
    ensures |r| == |s| - 1
  {
    var i := IndexOf(s, x);
    s[..i] + s[i + 1..]
  }

  function Delete<K>(t: Table<K>, e: Element<K>): Table<K>
    requires |t.bkts| > 0
    requires e in t.bkts[ToBkt(e.hashv, |t.bkts|)].els
  {
    var b := ToBkt(e.hashv, |t.bkts|);
    t.(bkts := t.bkts[b := Chain(Without(t.bkts[b].els, e), t.bkts[b].mult)],
       numItems := (t.numItems + U32 - 1) % U32)
  }

  lemma WithoutDistinct<T>(s: seq<T>, x: T)
    requires x in s && Distinct(s)
    ensures Distinct(Without(s, x)) && x !in Without(s, x)
    ensures forall y :: y in Without(s, x) ==> y in s
    ensures forall y :: y in s && y != x ==> y in Without(s, x)
  {
    var i := IndexOf(s, x);
    forall y | y in s && y != x ensures y in Without(s, x) {
      var j :| 0 <= j < |s| && s[j] == y;
      assert Without(s, x)[if j < i then j else j - 1] == y;
    }
  }

  lemma PrependPartitions<K>(bkts: seq<Chain<K>>, app: seq<Element<K>>, e: Element<K>, c: Chain<K>)
    requires Partitions(bkts, app) && e !in app
    requires c.els == [e] + bkts[ToBkt(e.hashv, |bkts|)].els
    ensures Partitions(bkts[ToBkt(e.hashv, |bkts|) := c], app + [e])
  {
    var r := bkts[ToBkt(e.hashv, |bkts|) := c];
    forall x | x in app + [e] ensures x in r[ToBkt(x.hashv, |bkts|)].els {
      if x != e { assert x in bkts[ToBkt(x.hashv, |bkts|)].els; }
    }
  }

  lemma PrependKeepsWf<K>(t: Table<K>, app: seq<Element<K>>, e: Element<K>)
    requires Wf(t, app) && e !in app
    ensures Wf(Prepend(t, e), app + [e])
  {
    var b := ToBkt(e.hashv, |t.bkts|);
    PrependPartitions(t.bkts, app, e, Chain([e] + t.bkts[b].els, t.bkts[b].mult));
  }

  lemma AddKeepsWf<K>(t: Table<K>, app: seq<Element<K>>, e: Element<K>, memory: bool)
    requires Wf(t, app) && e !in app
    ensures Wf(Add(t, e, memory).0, app + [e])
  {
    var r := Add(t, e, memory).0;
    PrependKeepsWf(t, app, e);
    if 2 * |t.bkts| < U32 {
      ExpandKeepsWf(Prepend(t, e), app + [e]);
    }
    assert r == Prepend(t, e) || (2 * |t.bkts| < U32 && r == Expand(Prepend(t, e)));
  }

  lemma DropPartitions<K>(bkts: seq<Chain<K>>, app: seq<Element<K>>, e: Element<K>, c: Chain<K>)
    requires Partitions(bkts, app) && Distinct(app) && e in app
    requires c.els == Without(bkts[ToBkt(e.hashv, |bkts|)].els, e)
    ensures Partitions(bkts[ToBkt(e.hashv, |bkts|) := c], Without(app, e))
  {
    var b := ToBkt(e.hashv, |bkts|);
    WithoutDistinct(app, e);
    WithoutDistinct(bkts[b].els, e);
    DropMembers(bkts, app, e, b, c, Without(app, e));
  }

  lemma DropMembers<K>(bkts: seq<Chain<K>>, app: seq<Element<K>>, e: Element<K>, b: nat, c: Chain<K>, rest: seq<Element<K>>)
    requires Partitions(bkts, app) && b < |bkts| && b == ToBkt(e.hashv, |bkts|)
    requires Distinct(c.els) && (forall x :: x in c.els <==> x in bkts[b].els && x != e)
    requires forall x :: x in rest <==> x in app && x != e
    ensures Partitions(bkts[b := c], rest)
  {
    hide Distinct, ToBkt;
    var r := bkts[b := c];
    forall k, x | 0 <= k < |r| && x in r[k].els ensures x in rest && ToBkt(x.hashv, |bkts|) == k {
      assert x in bkts[k].els;
    }
    forall x | x in rest ensures x in r[ToBkt(x.hashv, |bkts|)].els {
      assert x in bkts[ToBkt(x.hashv, |bkts|)].els;
    }
  }

  lemma DeleteKeepsWf<K>(t: Table<K>, app: seq<Element<K>>, e: Element<K>)
    requires Wf(t, app) && Distinct(app) && e in app
    ensures Wf(Delete(t, e), Without(app, e))
  {
    var b := ToBkt(e.hashv, |t.bkts|);
    DropPartitions(t.bkts, app, e, Chain(Without(t.bkts[b].els, e), t.bkts[b].mult));
    Counting(|app|);
  }

  // ----- lookup -----

  predicate Matches<K(==)>(e: Element<K>, hashv: nat, key: K) {
    e.hashv == hashv && e.key == key
  }

  function FirstMatch<K(==)>(es: seq<Element<K>>, hashv: nat, key: K): (r: Option<Element<K>>)
    ensures r.Some? ==> r.value in es && Matches(r.value, hashv, key)
    ensures r.None? ==> forall e :: e in es ==> !Matches(e, hashv, key)
  {
    if es == [] then None
    else if Matches(es[0], hashv, key) then Some(es[0])
    else FirstMatch(es[1..], hashv, key)
  }

  function LastMatch<K(==)>(es: seq<Element<K>>, hashv: nat, key: K): (r: Option<Element<K>>)
    ensures r.Some? ==> r.value in es && Matches(r.value, hashv, key)
    ensures r.None? ==> forall e :: e in es ==> !Matches(e, hashv, key)
  {
    if es == [] then None
    else if Matches(es[|es| - 1], hashv, key) then Some(es[|es| - 1])
    else LastMatch(es[..|es| - 1], hashv, key)
  }

  function Lookup<K(==)>(t: Table<K>, hashv: nat, key: K): Option<Element<K>>
    requires |t.bkts| > 0
  {
    FirstMatch(t.bkts[ToBkt(hashv, |t.bkts|)].els, hashv, key)
  }

  lemma {:induction false} FirstOfReverse<K>(es: seq<Element<K>>, hashv: nat, key: K)
    ensures FirstMatch(Reverse(es), hashv, key) == LastMatch(es, hashv, key)
  {
    if es == [] {
    } else {
      FirstOfReverse(es[..|es| - 1], hashv, key);
      assert Reverse(es)[1..] == Reverse(es[..|es| - 1]);
    }
  }

  lemma {:induction false} LastOfSelect<K>(es: seq<Element<K>>, n: nat, hashv: nat, key: K)
    requires n > 0
    ensures LastMatch(Select(es, ToBkt(hashv, n), n), hashv, key) == LastMatch(es, hashv, key)
  {
    if es == [] {
    } else {
      var r := Select(es[..|es| - 1], ToBkt(hashv, n), n);
      LastOfSelect(es[..|es| - 1], n, hashv, key);
      assert (r + [es[|es| - 1]])[..|r|] == r;
    }
  }

  /**
   What a lookup finds after doubling: the last match of the old chain instead
   of the first. So doubling leaves the lookup of a key alone exactly when the
   old chain does not hold two elements for it.
   */
  lemma LookupAfterExpand<K>(t: Table<K>, app: seq<Element<K>>, hashv: nat, key: K)
    requires Wf(t, app)
    ensures Lookup(Expand(t), hashv, key) == LastMatch(t.bkts[ToBkt(hashv, |t.bkts|)].els, hashv, key)
    ensures Lookup(Expand(t), hashv, key) == Lookup(t, hashv, key)
       <==> forall e, f :: e in app && f in app && Matches(e, hashv, key) && Matches(f, hashv, key) ==> e == f
  {
    var n := |t.bkts|;
    var b := ToBkt(hashv, 2 * n);
    var old_ := t.bkts[ToBkt(hashv, n)].els;
    SplitTargets(hashv, n, t.log2);
    ExpandSplits(t, app, b);
    FirstOfReverse(Select(old_, b, 2 * n), hashv, key);
    LastOfSelect(old_, 2 * n, hashv, key);
    FirstIsLast(old_, hashv, key);
  }

  /** First and last match coincide exactly when there are not two of them. */
  lemma {:induction false} FirstIsLast<K>(es: seq<Element<K>>, hashv: nat, key: K)
    requires Distinct(es)
    ensures FirstMatch(es, hashv, key) == LastMatch(es, hashv, key)
       <==> forall e, f :: e in es && f in es && Matches(e, hashv, key) && Matches(f, hashv, key) ==> e == f
  {
    var p, q := FirstMatch(es, hashv, key), LastMatch(es, hashv, key);
    if p.Some? && p == q {
      FirstIndex(es, hashv, key);
      LastIndex(es, hashv, key);
    }
  }

  lemma {:induction false} FirstIndex<K>(es: seq<Element<K>>, hashv: nat, key: K)
    requires FirstMatch(es, hashv, key).Some?
    ensures exists i :: 0 <= i < |es| && es[i] == FirstMatch(es, hashv, key).value
                     && forall j :: 0 <= j < i ==> !Matches(es[j], hashv, key)
  {
    if Matches(es[0], hashv, key) {
      assert es[0] == FirstMatch(es, hashv, key).value;
    } else {
      FirstIndex(es[1..], hashv, key);
      var i :| 0 <= i < |es[1..]| && es[1..][i] == FirstMatch(es[1..], hashv, key).value
            && forall j :: 0 <= j < i ==> !Matches(es[1..][j], hashv, key);
      assert es[i + 1] == FirstMatch(es, hashv, key).value;
      forall j | 0 <= j < i + 1 ensures !Matches(es[j], hashv, key) {
        if j > 0 { assert es[j] == es[1..][j - 1]; }
      }
    }
  }

  lemma {:induction false} LastIndex<K>(es: seq<Element<K>>, hashv: nat, key: K)
    requires LastMatch(es, hashv, key).Some?
    ensures exists i :: 0 <= i < |es| && es[i] == LastMatch(es, hashv, key).value
                     && forall j :: i < j < |es| ==> !Matches(es[j], hashv, key)
  {
    var m := |es| - 1;
    if Matches(es[m], hashv, key) {
      assert es[m] == LastMatch(es, hashv, key).value;
    } else {
      LastIndex(es[..m], hashv, key);
      var i :| 0 <= i < m && es[..m][i] == LastMatch(es[..m], hashv, key).value
            && forall j :: i < j < m ==> !Matches(es[..m][j], hashv, key);
      assert es[i] == LastMatch(es, hashv, key).value;
      forall j | i < j < |es| ensures !Matches(es[j], hashv, key) {
        if j < m { assert es[j] == es[..m][j]; }
      }
    }
  }

  // ----- expansion statistics -----

  lemma IdealIsCeiling(numItems: nat, log2: nat, n: nat)
    requires n == Pow2(log2)
    ensures IdealLength(numItems, log2, n) == (numItems + 2 * n - 1) / (2 * n)
  {
    ShiftIsDivision(numItems, log2 + 1);
    MaskIsMod(numItems, log2 + 1);
    CeilingDivision(numItems, 2 * n);
  }

  function Over(len: nat, ideal: nat): nat {
    if len > ideal then len - ideal else 0
  }

  /** Items beyond the ideal length, summed over all chains. */
  function Excess<K>(bkts: seq<Chain<K>>, ideal: nat): nat {
    if bkts == [] then 0
    else Excess(bkts[..|bkts| - 1], ideal) + Over(|bkts[|bkts| - 1].els|, ideal)
  }

  function Total<K>(bkts: seq<Chain<K>>): nat {
    if bkts == [] then 0 else Total(bkts[..|bkts| - 1]) + |bkts[|bkts| - 1].els|
  }

  lemma {:induction false} SumsUpdate<K>(bkts: seq<Chain<K>>, b: nat, c: Chain<K>, ideal: nat)
    requires b < |bkts|
    ensures Excess(bkts[b := c], ideal) + Over(|bkts[b].els|, ideal) == Excess(bkts, ideal) + Over(|c.els|, ideal)
    ensures Total(bkts[b := c]) + |bkts[b].els| == Total(bkts) + |c.els|
    ensures |bkts[b].els| <= Total(bkts)
  {
    var m := |bkts| - 1;
    if b == m {
      assert bkts[b := c][..m] == bkts[..m];
    } else {
      SumsUpdate(bkts[..m], b, c, ideal);
      assert bkts[b := c][..m] == bkts[..m][b := c];
    }
  }

  /** An overfull chain's multiplier is the number of ideal lengths it has passed. */
  ghost predicate MultBounds(len: nat, mult: nat, ideal: nat) {
    if len <= ideal then mult == 0 else (mult - 1) * ideal < len <= mult * ideal + 1
  }

  ghost predicate MultOk<K>(c: Chain<K>, ideal: nat) {
    MultBounds(|c.els|, c.mult, ideal)
  }

  ghost predicate StatsOk<K>(s: Spread<K>, ideal: nat) {
    s.nonideal == Excess(s.bkts, ideal) && forall b :: 0 <= b < |s.bkts| ==> MultOk(s.bkts[b], ideal)
  }

  lemma PlaceMult(len: nat, mult: nat, ideal: nat)
    requires ideal > 0 && MultBounds(len, mult, ideal) && len + 1 + ideal < U32
    ensures MultBounds(len + 1, NextMult(mult, len + 1, ideal), ideal)
  {
    assert (mult - 1) * ideal == mult * ideal - ideal;
    assert (mult + 1) * ideal == mult * ideal + ideal;
    assert 0 <= mult * ideal;
    if len > ideal {
      assert mult * ideal < len + ideal < U32;
      assert mult <= mult * ideal by {
        if ideal > 1 { StrictMul(1, ideal, mult); }
      }
      assert (mult * ideal) % U32 == mult * ideal && (mult + 1) % U32 == mult + 1;
    }
  }

  lemma GrowSums<K>(s: Spread<K>, b: nat, c: Chain<K>, ideal: nat)
    requires b < |s.bkts| && |c.els| == |s.bkts[b].els| + 1
    requires Total(s.bkts) + 1 < U32 && s.nonideal == Excess(s.bkts, ideal)
    ensures |c.els| % U32 == |c.els|
    ensures Excess(s.bkts[b := c], ideal) == if |c.els| > ideal then (s.nonideal + 1) % U32 else s.nonideal
    ensures Total(s.bkts[b := c]) == Total(s.bkts) + 1
  {
    SumsUpdate(s.bkts, b, c, ideal);
    ExcessBound(s.bkts, ideal);
  }

  lemma PlaceParts<K>(s: Spread<K>, e: Element<K>, ideal: nat, b: nat, c: Chain<K>)
    requires |s.bkts| > 0 && b == ToBkt(e.hashv, |s.bkts|) && |s.bkts[b].els| + 1 < U32
    requires c == Chain([e] + s.bkts[b].els, NextMult(s.bkts[b].mult, |s.bkts[b].els| + 1, ideal))
    ensures Place(s, e, ideal) == Spread(s.bkts[b := c], if |c.els| > ideal then (s.nonideal + 1) % U32 else s.nonideal)
  {
    hide NextMult, ToBkt;
    SmallMod(|s.bkts[b].els|);
  }

  lemma PlaceStats<K>(s: Spread<K>, e: Element<K>, ideal: nat)
    requires |s.bkts| > 0 && ideal > 0 && StatsOk(s, ideal) && Total(s.bkts) + 1 + ideal < U32
    ensures StatsOk(Place(s, e, ideal), ideal)
    ensures Total(Place(s, e, ideal).bkts) == Total(s.bkts) + 1
  {
    var b := ToBkt(e.hashv, |s.bkts|);
    var len, mult := |s.bkts[b].els|, s.bkts[b].mult;
    var c := Chain([e] + s.bkts[b].els, NextMult(mult, len + 1, ideal));
    assert MultOk(s.bkts[b], ideal);
    hide Place, Excess, Total, NextMult, MultBounds, ToBkt;
    SumsUpdate(s.bkts, b, s.bkts[b], ideal);
    PlaceParts(s, e, ideal, b, c);
    GrowSums(s, b, c, ideal);
    PlaceMult(len, mult, ideal);
    assert MultOk(c, ideal);
  }

  lemma {:induction false} ExcessBound<K>(bkts: seq<Chain<K>>, ideal: nat)
    ensures Excess(bkts, ideal) <= Total(bkts)
  {
    if bkts != [] { ExcessBound(bkts[..|bkts| - 1], ideal); }
  }

  lemma {:induction false} PlaceAllStats<K>(s: Spread<K>, es: seq<Element<K>>, ideal: nat)
    requires |s.bkts| > 0 && ideal > 0 && StatsOk(s, ideal) && Total(s.bkts) + |es| + ideal < U32
    ensures StatsOk(PlaceAll(s, es, ideal), ideal)
    ensures Total(PlaceAll(s, es, ideal).bkts) == Total(s.bkts) + |es|
  {
    if es == [] {
    } else {
      PlaceAllStats(s, es[..|es| - 1], ideal);
      PlaceStats(PlaceAll(s, es[..|es| - 1], ideal), es[|es| - 1], ideal);
    }
  }

  lemma {:induction false} PlaceChainsStats<K>(s: Spread<K>, cs: seq<Chain<K>>, ideal: nat)
    requires |s.bkts| > 0 && ideal > 0 && StatsOk(s, ideal) && Total(s.bkts) + Total(cs) + ideal < U32
    ensures StatsOk(PlaceChains(s, cs, ideal), ideal)
    ensures Total(PlaceChains(s, cs, ideal).bkts) == Total(s.bkts) + Total(cs)
  {
    if cs == [] {
    } else {
      PlaceChainsStats(s, cs[..|cs| - 1], ideal);
      PlaceAllStats(PlaceChains(s, cs[..|cs| - 1], ideal), cs[|cs| - 1].els, ideal);
    }
  }

  lemma {:induction false} EmptySums<K>(n: nat, ideal: nat)
    ensures Excess<K>(EmptyBuckets(n), ideal) == 0 && Total<K>(EmptyBuckets(n)) == 0
  {
    if n == 0 {
    } else {
      EmptySums<K>(n - 1, ideal);
      assert EmptyBuckets<K>(n)[..n - 1] == EmptyBuckets<K>(n - 1);
    }
  }

  /**
   The bookkeeping of a doubling is exact: the ideal length is the ceiling of
   items over new buckets, `nonideal` counts the items beyond it in their
   chains, and each overfull bucket got the multiplier its length calls for.
   */
  lemma ExpandStats<K>(t: Table<K>, app: seq<Element<K>>)
    requires Wf(t, app) && Distinct(app) && app != []
    requires |app| + Expand(t).ideal < U32
    ensures Expand(t).ideal == (|app| + 2 * |t.bkts| - 1) / (2 * |t.bkts|) > 0
    ensures Expand(t).nonideal == Excess(Expand(t).bkts, Expand(t).ideal)
    ensures forall b :: 0 <= b < |Expand(t).bkts| ==> MultOk(Expand(t).bkts[b], Expand(t).ideal)
    ensures Total(Expand(t).bkts) == |app|
  {
    assert t.numItems == |app| && |t.bkts| == Pow2(t.log2);
    hide *;
    ExpandIdeal(t);
    ExpandStatsAt(t, app, Expand(t).ideal);
  }

  lemma ExpandIneff<K>(t: Table<K>)
    requires |t.bkts| > 0
    ensures Expand(t).ineff == if Expand(t).nonideal > ShiftRight(t.numItems, 1) then (t.ineff + 1) % U32 else 0
    ensures Expand(t).noexpand <==> t.noexpand || Expand(t).ineff > 1
  {}

  /**
   Doubling is given up for good when it leaves more than half of the elements beyond
   the ideal length for the second time in a row.
   */
  lemma ExpandGivesUp<K>(t: Table<K>, app: seq<Element<K>>)
    requires Wf(t, app) && Distinct(app) && app != []
    requires |app| + Expand(t).ideal < U32 && t.ineff + 1 < U32
    ensures var bad := 2 * Excess(Expand(t).bkts, Expand(t).ideal) > |app|;
            && Expand(t).ineff == (if bad then t.ineff + 1 else 0)
            && (Expand(t).noexpand <==> t.noexpand || (bad && t.ineff > 0))
  {
    hide *;
    WfCounts(t, app);
    ExpandStats(t, app);
    ExpandIneff(t);
    HalfOf(|app|, Expand(t).nonideal);
    SmallMod(t.ineff);
  }

  lemma WfCounts<K>(t: Table<K>, app: seq<Element<K>>)
    requires Wf(t, app) && |app| < U32
    ensures |t.bkts| > 0 && t.numItems == |app|
  {}

  lemma SmallMod(n: nat)
    requires n + 1 < U32
    ensures (n + 1) % U32 == n + 1
  {}

  lemma HalfOf(n: nat, x: nat)
    ensures x > ShiftRight(n, 1) <==> 2 * x > n
  {
    ShiftIsDivision(n, 1);
    assert Pow2(1) == 2 * Pow2(0);
  }

  lemma ExpandIdeal<K>(t: Table<K>)
    requires |t.bkts| == Pow2(t.log2) && t.numItems > 0
    ensures Expand(t).ideal == (t.numItems + 2 * |t.bkts| - 1) / (2 * |t.bkts|) > 0
  {
    CeilingDivision(t.numItems, 2 * |t.bkts|);
    IdealIsCeiling(t.numItems, t.log2, |t.bkts|);
  }

  lemma ExpandStatsAt<K>(t: Table<K>, app: seq<Element<K>>, ideal: nat)
    requires Wf(t, app) && Distinct(app)
    requires ideal == Expand(t).ideal > 0 && |app| + ideal < U32
    ensures Expand(t).nonideal == Excess(Expand(t).bkts, ideal)
    ensures forall b :: 0 <= b < |Expand(t).bkts| ==> MultOk(Expand(t).bkts[b], ideal)
    ensures Total(Expand(t).bkts) == |app|
  {
    var s := Spread(EmptyBuckets<K>(2 * |t.bkts|), 0);
    EmptySums<K>(2 * |t.bkts|, ideal);
    TotalIsLength(t.bkts, app);
    assert StatsOk(s, ideal);
    hide Excess, Total, MultOk, PlaceChains, Partitions;
    PlaceChainsStats(s, t.bkts, ideal);
  }

  function Flatten<K>(bkts: seq<Chain<K>>): (r: seq<Element<K>>)
    ensures |r| == Total(bkts)
  {
    if bkts == [] then [] else Flatten(bkts[..|bkts| - 1]) + bkts[|bkts| - 1].els
  }

  lemma {:induction false} FlattenMembers<K>(bkts: seq<Chain<K>>, n: nat)
    requires n > 0
    requires forall b :: 0 <= b < |bkts| ==> Distinct(bkts[b].els)
    requires forall b, e :: 0 <= b < |bkts| && e in bkts[b].els ==> ToBkt(e.hashv, n) == b
    ensures Distinct(Flatten(bkts))
    ensures forall e :: e in Flatten(bkts) ==> ToBkt(e.hashv, n) < |bkts| && e in bkts[ToBkt(e.hashv, n)].els
    ensures forall b, e :: 0 <= b < |bkts| && e in bkts[b].els ==> e in Flatten(bkts)
  {
    if bkts == [] {
    } else {
      var m := |bkts| - 1;
      var f := Flatten(bkts[..m]);
      FlattenMembers(bkts[..m], n);
      forall i, j | 0 <= i < j < |f + bkts[m].els| ensures (f + bkts[m].els)[i] != (f + bkts[m].els)[j] {
        if i < |f| <= j {
          assert f[i] in f && bkts[m].els[j - |f|] in bkts[m].els;
        }
      }
    }
  }

  ghost function ElementSet<T>(s: seq<T>): set<T> {
    set x | x in s
  }

  lemma {:induction false} DistinctCard<T>(s: seq<T>)
    requires Distinct(s)
    ensures |ElementSet(s)| == |s|
  {
    if s == [] {
      assert ElementSet(s) == {};
    } else {
      var n := |s| - 1;
      DistinctCard(s[..n]);
      assert s == s[..n] + [s[n]];
      assert ElementSet(s) == ElementSet(s[..n]) + {s[n]};
      assert s[n] !in s[..n];
    }
  }

  /** The chain lengths add up to the number of elements in application order. */
  lemma TotalIsLength<K>(bkts: seq<Chain<K>>, app: seq<Element<K>>)
    requires Partitions(bkts, app) && Distinct(app)
    ensures Total(bkts) == |app|
  {
    var f := Flatten(bkts);
    FlattenMembers(bkts, |bkts|);
    assert forall e :: e in app ==> e in bkts[ToBkt(e.hashv, |bkts|)].els;
    assert forall e :: e in f <==> e in app;
    SameCard(f, app);
  }

  lemma SameCard<T>(s: seq<T>, t: seq<T>)
    requires Distinct(s) && Distinct(t) && forall x :: x in s <==> x in t
    ensures |s| == |t|
  {
    DistinctCard(s);
    DistinctCard(t);
    assert ElementSet(s) == ElementSet(t);
  }

  // ----- when the buckets are doubled -----

  /**
   When adding an element doubles the buckets: exactly if doubling was not given up
   and the element's chain then has ten times as many elements as its multiplier and
   one more. Where the number of buckets cannot be doubled, the element is added all
   the same and the failure is reported.
   */
  lemma AddDoublesIff<K>(t: Table<K>, e: Element<K>, memory: bool)
    requires |t.bkts| > 0
    requires var c := t.bkts[ToBkt(e.hashv, |t.bkts|)]; |c.els| + 1 < U32 && 10 * (c.mult + 1) < U32
    ensures var c := t.bkts[ToBkt(e.hashv, |t.bkts|)];
            var due := !t.noexpand && |c.els| + 1 >= 10 * (c.mult + 1);
            var can := memory && 2 * |t.bkts| < 0x1_0000_0000;
            var (r, ok) := Add(t, e, memory);
            && |r.bkts| == (if due && can then 2 * |t.bkts| else |t.bkts|)
            && (ok <==> due ==> can)
  {
    hide Threshold, Expand, Prepend, ToBkt;
    ThresholdIs(t.bkts[ToBkt(e.hashv, |t.bkts|)].mult);
    SmallMod(|t.bkts[ToBkt(e.hashv, |t.bkts|)].els|);
  }

  lemma ThresholdIs(mult: nat)
    requires 10 * (mult + 1) < U32
    ensures Threshold(mult) == 10 * (mult + 1)
  {}

  /** No multiplier is so large that a threshold could wrap around. */
  ghost predicate Modest<K>(t: Table<K>) {
    forall b :: 0 <= b < |t.bkts| ==> t.bkts[b].mult < MODEST
  }

  /** The buckets a new table has, none of them in need of more room than others. */
  ghost predicate Fresh<K>(t: Table<K>) {
    |t.bkts| == 32 && forall b :: 0 <= b < 32 ==> t.bkts[b].mult == 0
  }

  lemma {:induction false} CardBound<T>(s: seq<T>)
    ensures |ElementSet(s)| <= |s|
  {
    if s == [] {
      assert ElementSet(s) == {};
    } else {
      var n := |s| - 1;
      CardBound(s[..n]);
      assert s == s[..n] + [s[n]];
      assert ElementSet(s) == ElementSet(s[..n]) + {s[n]};
    }
  }

  lemma SubsetCard<T>(a: set<T>, b: set<T>)
    requires a <= b
    ensures |a| <= |b|
  {
    assert b == a + (b - a);
  }

  /** A chain is no longer than the list of all elements. */
  lemma ChainBound<K>(bkts: seq<Chain<K>>, app: seq<Element<K>>, b: nat)
    requires Partitions(bkts, app) && b < |bkts|
    ensures |bkts[b].els| <= |app|
  {
    DistinctCard(bkts[b].els);
    CardBound(app);
    SubsetCard(ElementSet(bkts[b].els), ElementSet(app));
  }

  /** Among less than ten elements no addition doubles the buckets, and none fails. */
  lemma FewStayFresh<K>(t: Table<K>, app: seq<Element<K>>, e: Element<K>, memory: bool)
    requires Wf(t, app) && Fresh(t) && |app| + 1 < 10
    ensures Add(t, e, memory).1 && Fresh(Add(t, e, memory).0)
  {
    ChainBound(t.bkts, app, ToBkt(e.hashv, |t.bkts|));
    AddDoublesIff(t, e, memory);
  }

  lemma PlaceMultBound<K>(s: Spread<K>, e: Element<K>, ideal: nat)
    requires |s.bkts| > 0 && forall b :: 0 <= b < |s.bkts| ==> s.bkts[b].mult <= |s.bkts[b].els|
    ensures forall b :: 0 <= b < |s.bkts| ==> Place(s, e, ideal).bkts[b].mult <= |Place(s, e, ideal).bkts[b].els|
  {}

  lemma {:induction false} PlaceAllMultBound<K>(s: Spread<K>, es: seq<Element<K>>, ideal: nat)
    requires |s.bkts| > 0 && forall b :: 0 <= b < |s.bkts| ==> s.bkts[b].mult <= |s.bkts[b].els|
    ensures forall b :: 0 <= b < |s.bkts| ==> PlaceAll(s, es, ideal).bkts[b].mult <= |PlaceAll(s, es, ideal).bkts[b].els|
  {
    if es == [] {
    } else {
      PlaceAllMultBound(s, es[..|es| - 1], ideal);
      PlaceMultBound(PlaceAll(s, es[..|es| - 1], ideal), es[|es| - 1], ideal);
    }
  }

  /** A multiplier is at most the length of its chain when the buckets have just been doubled. */
  lemma {:induction false} PlaceChainsMultBound<K>(s: Spread<K>, cs: seq<Chain<K>>, ideal: nat)
    requires |s.bkts| > 0 && forall b :: 0 <= b < |s.bkts| ==> s.bkts[b].mult <= |s.bkts[b].els|
    ensures forall b :: 0 <= b < |s.bkts| ==> PlaceChains(s, cs, ideal).bkts[b].mult <= |PlaceChains(s, cs, ideal).bkts[b].els|
  {
    if cs == [] {
    } else {
      PlaceChainsMultBound(s, cs[..|cs| - 1], ideal);
      PlaceAllMultBound(PlaceChains(s, cs[..|cs| - 1], ideal), cs[|cs| - 1].els, ideal);
    }
  }

  /**
   A map that never has 2^28 elements: multipliers stay small, and adding fails only
   if the element's chain has come to ten elements.
   */
  lemma AddStaysModest<K>(t: Table<K>, app: seq<Element<K>>, e: Element<K>, memory: bool)
    requires Wf(t, app) && Modest(t) && e !in app && |app| + 1 < MODEST
    ensures Modest(Add(t, e, memory).0)
    ensures !Add(t, e, memory).1 ==> |t.bkts[ToBkt(e.hashv, |t.bkts|)].els| + 1 >= 10
  {
    var b := ToBkt(e.hashv, |t.bkts|);
    ChainBound(t.bkts, app, b);
    AddDoublesIff(t, e, memory);
    PrependKeepsWf(t, app, e);
    if 2 * |t.bkts| < U32 {
      ExpandStaysModest(Prepend(t, e), app + [e]);
    }
  }

  lemma ExpandStaysModest<K>(t: Table<K>, app: seq<Element<K>>)
    requires Wf(t, app) && |app| < MODEST && 2 * |t.bkts| < U32
    ensures Modest(Expand(t))
  {
    PlaceChainsMultBound(Spread(EmptyBuckets<K>(2 * |t.bkts|), 0), t.bkts, IdealLength(t.numItems, t.log2, |t.bkts|));
    ExpandKeepsWf(t, app);
    forall b | 0 <= b < |Expand(t).bkts| ensures Expand(t).bkts[b].mult < MODEST {
      ChainBound(Expand(t).bkts, app, b);
    }
  }

  /** Before any doubling, adding changes no multiplier, and a lookup finds the element that was added last. */
  lemma PrependStays<K>(t: Table<K>, e: Element<K>)
    requires |t.bkts| > 0
    ensures Lookup(Prepend(t, e), e.hashv, e.key) == Some(e)
    ensures Prepend(t, e).noexpand == t.noexpand && Prepend(t, e).ineff == t.ineff
    ensures forall b :: 0 <= b < |t.bkts| ==> Prepend(t, e).bkts[b].mult == t.bkts[b].mult
  {}

  /** Deleting changes no multiplier and no number of buckets. */
  lemma DeleteStays<K>(t: Table<K>, e: Element<K>)
    requires |t.bkts| > 0 && e in t.bkts[ToBkt(e.hashv, |t.bkts|)].els
    ensures |Delete(t, e).bkts| == |t.bkts| && Delete(t, e).noexpand == t.noexpand && Delete(t, e).ineff == t.ineff
    ensures forall b :: 0 <= b < |t.bkts| ==> Delete(t, e).bkts[b].mult == t.bkts[b].mult
  {}
}
