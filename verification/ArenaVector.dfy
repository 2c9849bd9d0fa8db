/**
 Vectors of libks/vector.c whose storage is an object of an arena. A vector that
 grows passes the bytes it has in use, and not the size of its block, as the old size.
 */
module ArenaVector {
  import opened Wrappers
  import opened Arithmetic
  import opened Arena
  import opened ArenaScopes
  import opened ArenaRuns
  import opened Growth

  // ----- the bytes of a vector -----

  /** The bytes of a record and some elements. */
  function Used(header: nat, stride: nat, len: nat): (r: nat)
    ensures r >= header
  {
    if len == 0 then header else Used(header, stride, len - 1) + stride
  }

  lemma {:induction false} UsedIs(header: nat, stride: nat, len: nat)
    ensures Used(header, stride, len) == header + len * stride
  {
    if len == 0 {
    } else {
      UsedIs(header, stride, len - 1);
      assert len * stride == (len - 1) * stride + stride;
    }
  }

  lemma {:induction false} UsedMonotone(header: nat, stride: nat, n: nat, m: nat)
    requires n <= m
    ensures Used(header, stride, n) <= Used(header, stride, m)
  {
    if n == m {
    } else {
      UsedMonotone(header, stride, n, m - 1);
    }
  }

  /** The first elements of a vector whose record and elements are stored in these bytes. */
  function Elements(content: seq<Byte>, header: nat, stride: nat, len: nat): (r: seq<seq<Byte>>)
    requires Used(header, stride, len) <= |content|
    ensures |r| == len
  {
    if len == 0 then []
    else Elements(content, header, stride, len - 1) + [content[Used(header, stride, len - 1)..Used(header, stride, len)]]
  }

  lemma SameSlice(x: seq<Byte>, y: seq<Byte>, lo: nat, hi: nat, used: nat)
    requires lo <= hi <= used <= |x| && used <= |y| && SameFirst(x, y, used)
    ensures x[lo..hi] == y[lo..hi]
  {}

  /** The elements only depend on the bytes that are in use. */
  lemma {:induction false} SameElements(x: seq<Byte>, y: seq<Byte>, header: nat, stride: nat, len: nat, used: nat)
    requires Used(header, stride, len) <= used <= |x| && used <= |y| && SameFirst(x, y, used)
    ensures Elements(x, header, stride, len) == Elements(y, header, stride, len)
  {
    if len == 0 {
    } else {
      SameElements(x, y, header, stride, len - 1, used);
      SameSlice(x, y, Used(header, stride, len - 1), Used(header, stride, len), used);
    }
  }

  // ----- the operations -----

  /** A vector that is object h of a system. */
  datatype Vec = Vec(s: System, len: nat, size: nat)

  /** What does not change: the number of the object, and the sizes of record and elements. */
  datatype Kind = Kind(h: nat, header: nat, stride: nat)

  datatype Call = Reserve(n: nat) | Push(x: seq<Byte>) | Pop

  ghost predicate VecOk(k: Kind, v: Vec) {
    && Valid(v.s) && v.s.scopes != [] && k.h in v.s.objects && v.s.objects[k.h].scope + 1 == |v.s.scopes|
    && v.len <= v.size && v.s.objects[k.h].size == Used(k.header, k.stride, v.size)
  }

  ghost function Contents(k: Kind, v: Vec): seq<seq<Byte>>
    requires VecOk(k, v)
  {
    UsedMonotone(k.header, k.stride, v.len, v.size);
    InsideHasBytes(v.s, k.h);
    Elements(Content(v.s, k.h), k.header, k.stride, v.len)
  }

  lemma VecFacts(k: Kind, v: Vec)
    requires VecOk(k, v)
    ensures v.s.a.frames != [] && v.s.a.frameSize > 0 && |Content(v.s, k.h)| == v.s.objects[k.h].size
    ensures k.header <= Used(k.header, k.stride, v.len) <= v.s.objects[k.h].size
    ensures Follows(k, v, v, Contents(k, v))
  {
    UsedMonotone(k.header, k.stride, v.len, v.size);
    InsideHasBytes(v.s, k.h);
  }

  /** The vector is the other one after a call, and nothing else in the arena has changed. */
  ghost predicate Follows(k: Kind, v: Vec, w: Vec, elements: seq<seq<Byte>>) {
    && VecOk(k, w) && Contents(k, w) == elements
    && forall g :: g in v.s.objects && g != k.h ==> Kept(v.s, w.s, g)
  }

  /**
   Room for n more elements. The flag says whether it can be had; None is an error
   exit of the arena.
   */
  function Reserved(k: Kind, v: Vec, n: nat, mem: Memory): Option<(Vec, bool)>
    requires v.s.a.frames != [] && v.s.a.frameSize > 0 && v.s.scopes != [] && k.h in v.s.objects
    requires Used(k.header, k.stride, v.len) <= v.s.objects[k.h].size
  {
    match Room(v.size, v.len, n, k.stride, k.header)
    case None => Some((v, false))
    case Some(size) =>
      if v.len + n <= v.size then Some((v, true))
      else
        match Realloc(v.s, k.h, Used(k.header, k.stride, v.len), Used(k.header, k.stride, size), mem)
        case None => None
        case Some(t) => Some((Vec(t, v.len, size), true))
  }

  /** A call, and whether it succeeds. */
  ghost function Called(k: Kind, v: Vec, c: Call, mem: Memory): Option<(Vec, bool)>
    requires VecOk(k, v)
  {
    UsedMonotone(k.header, k.stride, v.len, v.size);
    match c
    case Reserve(n) => Reserved(k, v, n, mem)
    case Pop => Some(if v.len == 0 then (v, false) else (v.(len := v.len - 1), true))
    case Push(x) =>
      match Reserved(k, v, 1, mem)
      case None => None
      case Some((w, ok)) =>
        if !ok || k.h !in w.s.objects then Some((w, false))
        else Some((Vec(Store(w.s, k.h, Used(k.header, k.stride, v.len), x), v.len + 1, w.size), true))
  }

  /** The elements after a call. */
  function After(elements: seq<seq<Byte>>, c: Call, ok: bool): seq<seq<Byte>> {
    match c
    case Reserve(_) => elements
    case Push(x) => if ok then elements + [x] else elements
    case Pop => if ok && elements != [] then elements[..|elements| - 1] else elements
  }

  /**
   A vector grown through arena_realloc keeps its record and all elements, although
   it names only the bytes in use as the old size.
   */
  lemma GrowInArena(k: Kind, v: Vec, size: nat, mem: Memory)
    requires VecOk(k, v) && Sound(mem) && v.len <= size
    requires Used(k.header, k.stride, v.len) <= v.s.objects[k.h].size
    requires Realloc(v.s, k.h, Used(k.header, k.stride, v.len), Used(k.header, k.stride, size), mem).Some?
    ensures var t := Realloc(v.s, k.h, Used(k.header, k.stride, v.len), Used(k.header, k.stride, size), mem).value;
            && Follows(k, v, Vec(t, v.len, size), Contents(k, v))
            && |Content(v.s, k.h)| >= k.header && |Content(t, k.h)| >= k.header
            && Content(t, k.h)[..k.header] == Content(v.s, k.h)[..k.header]
  {
    hide Valid, Realloc, Content, Kept, Elements, Used, SameFirst, Alloc, ReallocFast;
    VecFacts(k, v);
    var used, total := Used(k.header, k.stride, v.len), Used(k.header, k.stride, size);
    UsedMonotone(k.header, k.stride, v.len, size);
    ReallocKeeps(v.s, k.h, used, total, mem);
    var t := Realloc(v.s, k.h, used, total, mem).value;
    SameElements(Content(t, k.h), Content(v.s, k.h), k.header, k.stride, v.len, used);
    SameSlice(Content(t, k.h), Content(v.s, k.h), 0, k.header, used);
  }

  lemma ReserveKeeps(k: Kind, v: Vec, n: nat, mem: Memory)
    requires VecOk(k, v) && Sound(mem) && Used(k.header, k.stride, v.len) <= v.s.objects[k.h].size
    requires Reserved(k, v, n, mem).Some?
    ensures var (w, ok) := Reserved(k, v, n, mem).value;
            && Follows(k, v, w, Contents(k, v)) && w.len == v.len
            && ok == Room(v.size, v.len, n, k.stride, k.header).Some? && (ok ==> v.len + n <= w.size)
  {
    var room := Room(v.size, v.len, n, k.stride, k.header);
    if room.Some? && v.len + n > v.size {
      GrowInArena(k, v, room.value, mem);
    }
  }

  lemma StoredElements(content: seq<Byte>, k: Kind, len: nat, x: seq<Byte>, after: seq<Byte>)
    requires |x| == k.stride && Used(k.header, k.stride, len) + |x| <= |content|
    requires after == content[..Used(k.header, k.stride, len)] + x + content[Used(k.header, k.stride, len) + |x|..]
    ensures Used(k.header, k.stride, len + 1) <= |after|
    ensures Elements(after, k.header, k.stride, len + 1) == Elements(content, k.header, k.stride, len) + [x]
  {
    var used := Used(k.header, k.stride, len);
    assert SameFirst(after, content, used);
    SameElements(after, content, k.header, k.stride, len, used);
    assert after[used..used + |x|] == x;
  }

  lemma UsedNext(header: nat, stride: nat, len: nat)
    ensures Used(header, stride, len + 1) == Used(header, stride, len) + stride
  {}

  lemma StoreElement(k: Kind, v: Vec, x: seq<Byte>)
    requires VecOk(k, v) && v.len < v.size && |x| == k.stride
    ensures Follows(k, v, Vec(Store(v.s, k.h, Used(k.header, k.stride, v.len), x), v.len + 1, v.size), Contents(k, v) + [x])
  {
    hide Valid, Content, Kept, Elements, Used, Bytes, Write;
    VecFacts(k, v);
    UsedMonotone(k.header, k.stride, v.len + 1, v.size);
    UsedNext(k.header, k.stride, v.len);
    StoreKeeps(v.s, k.h, Used(k.header, k.stride, v.len), x);
    StoredElements(Content(v.s, k.h), k, v.len, x, Content(Store(v.s, k.h, Used(k.header, k.stride, v.len), x), k.h));
  }

  lemma ElementsPrefix(content: seq<Byte>, header: nat, stride: nat, len: nat)
    requires len > 0 && Used(header, stride, len) <= |content|
    ensures Used(header, stride, len - 1) <= |content|
    ensures Elements(content, header, stride, len)[..len - 1] == Elements(content, header, stride, len - 1)
  {
    UsedNext(header, stride, len - 1);
  }

  lemma SelfKept(s: System)
    ensures forall h :: h in s.objects ==> Kept(s, s, h)
  {}

  lemma PopElements(k: Kind, v: Vec)
    requires VecOk(k, v)
    ensures v.len > 0 ==> Follows(k, v, v.(len := v.len - 1), Contents(k, v)[..v.len - 1])
  {
    hide Valid, Content, Kept, Elements, Used;
    VecFacts(k, v);
    SelfKept(v.s);
    if v.len > 0 {
      ElementsPrefix(Content(v.s, k.h), k.header, k.stride, v.len);
    }
  }

  lemma FollowsAlong(k: Kind, v: Vec, u: Vec, w: Vec, before: seq<seq<Byte>>, after: seq<seq<Byte>>)
    requires Follows(k, v, u, before) && Follows(k, u, w, after)
    ensures Follows(k, v, w, after)
  {
    hide Valid, Content, VecOk, Contents;
    forall g | g in v.s.objects && g != k.h ensures Kept(v.s, w.s, g) {
      assert Kept(v.s, u.s, g) && Kept(u.s, w.s, g);
    }
  }

  lemma PushKeeps(k: Kind, v: Vec, x: seq<Byte>, mem: Memory)
    requires VecOk(k, v) && Sound(mem) && |x| == k.stride && Called(k, v, Push(x), mem).Some?
    ensures var (w, ok) := Called(k, v, Push(x), mem).value;
            && Follows(k, v, w, if ok then Contents(k, v) + [x] else Contents(k, v))
            && ok == Room(v.size, v.len, 1, k.stride, k.header).Some?
  {
    hide Valid, Store, Content, Kept, Elements, Used, Reserved, Room, Contents;
    VecFacts(k, v);
    ReserveKeeps(k, v, 1, mem);
    var (w, ok) := Reserved(k, v, 1, mem).value;
    if ok {
      StoreElement(k, w, x);
      FollowsAlong(k, v, w, Called(k, v, Push(x), mem).value.0, Contents(k, v), Contents(k, v) + [x]);
    }
  }

  /** Every call does to the elements what it does to a plain list, and nothing to any other object. */
  lemma CallKeeps(k: Kind, v: Vec, c: Call, mem: Memory)
    requires VecOk(k, v) && Sound(mem) && (c.Push? ==> |c.x| == k.stride) && Called(k, v, c, mem).Some?
    ensures var (w, ok) := Called(k, v, c, mem).value;
            && Follows(k, v, w, After(Contents(k, v), c, ok))
            && ok == (if c.Pop? then v.len > 0 else Room(v.size, v.len, if c.Push? then 1 else c.n, k.stride, k.header).Some?)
  {
    VecFacts(k, v);
    PopElements(k, v);
    match c
    case Reserve(n) => ReserveKeeps(k, v, n, mem);
    case Pop =>
    case Push(x) => PushKeeps(k, v, x, mem);
  }

  /** The room that a call asks for. */
  function Asked(c: Call): nat {
    match c
    case Reserve(n) => n
    case Push(_) => 1
    case Pop => 0
  }

  /**
   A call that grows the vector ends the program exactly if the arena cannot give the
   block that the new capacity takes; any other call returns.
   */
  lemma CallExits(k: Kind, v: Vec, c: Call, mem: Memory)
    requires VecOk(k, v) && Sound(mem)
    ensures Called(k, v, c, mem).None? <==>
            && v.len + Asked(c) > v.size && Room(v.size, v.len, Asked(c), k.stride, k.header).Some?
            && var used, size := Used(k.header, k.stride, v.len), Room(v.size, v.len, Asked(c), k.stride, k.header).value;
               var total := Used(k.header, k.stride, size);
               && v.s.a.frames != [] && !StaysPut(v.s, k.h, used, total) && Top(v.s.a).len + total > Top(v.s.a).size
               && NeverReaches(v.s.a.frameSize, v.s.a.poison + (total + HEADER))
  {
    hide Valid, Realloc, Content, Kept, Elements, Used, Room, NeverReaches, StaysPut, Contents, Store;
    VecFacts(k, v);
    var room := Room(v.size, v.len, Asked(c), k.stride, k.header);
    if room.Some? {
      ReallocFails(v.s, k.h, Used(k.header, k.stride, v.len), Used(k.header, k.stride, room.value), mem);
    }
  }

  // ----- runs -----

  /** The vector after a run of calls, and which of them succeeded. */
  ghost function Run(k: Kind, v: Vec, calls: seq<Call>, mem: nat -> Memory): Option<(Vec, seq<bool>)>
    decreases |calls|
  {
    if calls == [] then Some((v, []))
    else
      var n := |calls| - 1;
      match Run(k, v, calls[..n], mem)
      case None => None
      case Some((u, oks)) =>
        if !VecOk(k, u) then None
        else
          match Called(k, u, calls[n], mem(n))
          case None => None
          case Some((w, ok)) => Some((w, oks + [ok]))
  }

  function AfterAll(elements: seq<seq<Byte>>, calls: seq<Call>, oks: seq<bool>): seq<seq<Byte>>
    requires |oks| == |calls|
  {
    if calls == [] then elements
    else
      var n := |calls| - 1;
      After(AfterAll(elements, calls[..n], oks[..n]), calls[n], oks[n])
  }

  /**
   Over any run of calls a vector in an arena is the plain list, however often it is
   grown in place or moved, and every other object keeps its place and bytes.
   */
  lemma {:induction false} RunIsList(k: Kind, v: Vec, calls: seq<Call>, mem: nat -> Memory)
    requires VecOk(k, v) && AllSound(mem) && Run(k, v, calls, mem).Some?
    requires forall i :: 0 <= i < |calls| && calls[i].Push? ==> |calls[i].x| == k.stride
    ensures var (w, oks) := Run(k, v, calls, mem).value;
            |oks| == |calls| && Follows(k, v, w, AfterAll(Contents(k, v), calls, oks))
    decreases |calls|
  {
    hide Valid, Content, Kept, Called, Contents, VecOk;
    VecFacts(k, v);
    if calls == [] {
    } else {
      var n := |calls| - 1;
      RunIsList(k, v, calls[..n], mem);
      var (u, oks) := Run(k, v, calls[..n], mem).value;
      assert Sound(mem(n));
      CallKeeps(k, u, calls[n], mem(n));
      var (w, ok) := Called(k, u, calls[n], mem(n)).value;
      assert (oks + [ok])[..n] == oks;
      FollowsAlong(k, v, u, w, Contents(k, u), Contents(k, w));
    }
  }
}
