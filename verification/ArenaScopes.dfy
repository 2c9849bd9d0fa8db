/**
 Scopes of libks/arena.c, and what every run of allocations, reallocations, stores
 and scopes keeps. Objects have numbers here, which the caller chooses.
 */
module ArenaScopes {
  import opened Wrappers
  import opened Arithmetic
  import opened Arena

  /** What entering a scope remembers, and its cleanups, the last one first. */
  datatype Scope = Scope(frames: nat, len: nat, bytesNow: nat, framesNow: nat, scopesNow: nat, id: int, cleanups: seq<nat>)

  /**
   An object: the index of its scope, its place and size, and where the frame
   went on after the object was allocated.
   */
  datatype Object = Object(scope: nat, frame: nat, off: nat, size: nat, end: nat)

  /** The scopes are nested, the innermost one is the last. */
  datatype System = System(a: Arena, scopes: seq<Scope>, objects: map<nat, Object>, freed: bool)

  /** The bytes of an object. */
  function Content(s: System, h: nat): seq<Byte> {
    if h in s.objects then Bytes(s.a, s.objects[h]) else []
  }

  function Bytes(a: Arena, o: Object): seq<Byte> {
    if o.frame < |a.frames| && o.off + o.size <= |a.frames[o.frame].data|
    then a.frames[o.frame].data[o.off..o.off + o.size] else []
  }

  /** The object is where it was and holds what it held. */
  predicate Kept(s: System, t: System, h: nat) {
    h in s.objects && h in t.objects && t.objects[h] == s.objects[h] && Content(t, h) == Content(s, h)
  }

  // ----- invariant -----

  /** Inside its frame, behind the frame's record, at a multiple of eight. */
  predicate Inside(a: Arena, o: Object) {
    && o.frame < |a.frames| && HEADER <= o.off && o.off % 8 == 0
    && o.off + o.size <= o.end <= a.frames[o.frame].len
    && Min(Align(a.poison, o.off + o.size), a.frames[o.frame].size) <= o.end
  }

  /** The two objects share no byte; an object that takes no room shares none with any. */
  predicate Apart(o: Object, p: Object) {
    o.frame != p.frame || o.off == o.end || p.off == p.end || o.end <= p.off || p.end <= o.off
  }

  /** The object was there before the scope was entered, and leaving the scope leaves it there. */
  predicate Before(o: Object, sc: Scope) {
    o.frame + 1 < sc.frames || (o.frame + 1 == sc.frames && o.end <= sc.len)
  }

  predicate ScopeOk(a: Arena, sc: Scope) {
    1 <= sc.frames <= |a.frames| && sc.len % 8 == 0 && HEADER <= sc.len <= a.frames[sc.frames - 1].len
  }

  predicate Nested(sc: Scope, inner: Scope) {
    sc.frames < inner.frames || (sc.frames == inner.frames && sc.len <= inner.len)
  }

  ghost predicate ScopesOk(s: System) {
    && (forall i :: 0 <= i < |s.scopes| ==> ScopeOk(s.a, s.scopes[i]))
    && (forall i, j :: 0 <= i < j < |s.scopes| ==> Nested(s.scopes[i], s.scopes[j]))
  }

  ghost predicate ObjectsOk(s: System) {
    && (forall h :: h in s.objects ==> Inside(s.a, s.objects[h]) && s.objects[h].scope < |s.scopes|)
    && (forall h, g :: h in s.objects && g in s.objects && h != g ==> Apart(s.objects[h], s.objects[g]))
    && (forall h, i :: h in s.objects && s.objects[h].scope < i < |s.scopes| ==> Before(s.objects[h], s.scopes[i]))
  }

  ghost predicate Valid(s: System) {
    && ArenaOk(s.a) && s.a.frames != [] && ScopesOk(s) && ObjectsOk(s)
    && s.a.refs == |s.scopes| + (if s.freed then 0 else 1)
  }

  /** No byte belongs to two objects. */
  lemma Disjoint(s: System, h: nat, g: nat, i: nat)
    requires Valid(s) && h in s.objects && g in s.objects && h != g && s.objects[h].frame == s.objects[g].frame
    requires s.objects[h].off <= i < s.objects[h].off + s.objects[h].size
    ensures !(s.objects[g].off <= i < s.objects[g].off + s.objects[g].size)
  {
    assert Apart(s.objects[h], s.objects[g]);
  }

  // What the invariant says, for proofs that need not look into it.

  lemma ValidArena(s: System)
    requires Valid(s)
    ensures ArenaOk(s.a) && s.a.frames != [] && s.a.frameSize > 0 && FrameOk(Top(s.a))
    ensures s.a.refs == |s.scopes| + (if s.freed then 0 else 1)
  {}

  lemma ValidObject(s: System, h: nat)
    requires Valid(s) && h in s.objects
    ensures Inside(s.a, s.objects[h]) && s.objects[h].scope < |s.scopes| && |Content(s, h)| == s.objects[h].size
  {
    assert Inside(s.a, s.objects[h]);
  }

  lemma ValidOthers(s: System, h: nat)
    requires Valid(s) && h in s.objects
    ensures forall g :: g in s.objects ==> Inside(s.a, s.objects[g])
    ensures forall g :: g in s.objects && g != h ==> Apart(s.objects[g], s.objects[h])
  {}

  // ----- taking bytes -----

  /** The arena with more taken from its last frame, and nothing else changed below. */
  predicate Grown(a: Arena, b: Arena) {
    && |b.frames| >= |a.frames| > 0
    && (forall i :: 0 <= i < |a.frames| ==>
          b.frames[i].size == a.frames[i].size && b.frames[i].data == a.frames[i].data && b.frames[i].len >= a.frames[i].len)
    && b.frameSize == a.frameSize && b.poison == a.poison && b.refs == a.refs
  }

  lemma GrownKeeps(s: System, b: Arena)
    requires Valid(s) && Grown(s.a, b) && ArenaOk(b)
    ensures Valid(s.(a := b))
    ensures forall h :: h in s.objects ==> Kept(s, s.(a := b), h)
  {
    forall h | h in s.objects ensures Inside(b, s.objects[h]) {
      assert Inside(s.a, s.objects[h]);
    }
    forall i | 0 <= i < |s.scopes| ensures ScopeOk(b, s.scopes[i]) {
      assert ScopeOk(s.a, s.scopes[i]);
    }
  }

  /** The object that a push from `from` makes. */
  function Pushed(a: Arena, scope: nat, from: nat, size: nat): Object
    requires a.frames != []
  {
    Object(scope, |a.frames| - 1, from, size, Taken(a.poison, Top(a).(len := from), size).len)
  }

  lemma PushOk(a: Arena, from: nat, size: nat)
    requires ArenaOk(a) && a.frames != [] && HEADER <= from <= Top(a).len && from % 8 == 0
    requires Fits(Top(a).(len := from), size) && Taken(a.poison, Top(a).(len := from), size).len >= Top(a).len
    ensures ArenaOk(Push(a, from, size)) && Grown(a, Push(a, from, size))
    ensures Inside(Push(a, from, size), Pushed(a, 0, from, size))
  {
    TakenOk(a.poison, Top(a).(len := from), size);
  }

  /** An object behind all others can be added. */
  lemma AddObject(s: System, h: nat, o: Object)
    requires Valid(s) && Inside(s.a, o) && o.scope + 1 == |s.scopes|
    requires forall g :: g in s.objects && g != h ==> Apart(s.objects[g], o)
    ensures Valid(s.(objects := s.objects[h := o]))
    ensures forall g :: g in s.objects && g != h ==> Kept(s, s.(objects := s.objects[h := o]), g)
  {
    var objects := s.objects[h := o];
    forall g, k | g in objects && k in objects && g != k ensures Apart(objects[g], objects[k]) {
      if g == h || k == h {
        assert Apart(s.objects[if g == h then k else g], o);
      }
    }
  }

  // ----- malloc -----

  /** The system after an allocation from the innermost scope. */
  function Alloc(s: System, h: nat, size: nat, mem: Memory): Option<System>
    requires s.a.frames != [] && s.a.frameSize > 0 && s.scopes != []
  {
    match Malloc(s.a, size, mem)
    case None => None
    case Some((b, p)) =>
      var end := if p.frame < |b.frames| then b.frames[p.frame].len else 0;
      Some(s.(a := b, objects := s.objects[h := Object(|s.scopes| - 1, p.frame, p.off, size, end)]))
  }

  /** All objects of the last frame are before its end. */
  lemma ApartFromEnd(s: System, o: Object)
    requires Valid(s) && o.frame + 1 == |s.a.frames| && o.off == Top(s.a).len
    ensures forall g :: g in s.objects ==> Apart(s.objects[g], o)
  {
    forall g | g in s.objects ensures Apart(s.objects[g], o) {
      assert Inside(s.a, s.objects[g]);
    }
  }

  lemma PushAlloc(s: System, h: nat, size: nat)
    requires Valid(s) && s.scopes != [] && h !in s.objects && Fits(Top(s.a), size)
    ensures var b, o := Push(s.a, Top(s.a).len, size), Pushed(s.a, |s.scopes| - 1, Top(s.a).len, size);
            && Valid(s.(a := b, objects := s.objects[h := o]))
            && forall g :: g in s.objects ==> Kept(s, s.(a := b, objects := s.objects[h := o]), g)
  {
    var from := Top(s.a).len;
    var b, o := Push(s.a, from, size), Pushed(s.a, |s.scopes| - 1, from, size);
    TakenOk(s.a.poison, Top(s.a), size);
    assert Top(s.a).(len := from) == Top(s.a);
    PushOk(s.a, from, size);
    GrownKeeps(s, b);
    ApartFromEnd(s, o);
    AddObject(s.(a := b), h, o);
  }

  lemma AddFrame(s: System, size: nat, mem: Memory)
    requires Valid(s) && Sound(mem) && Needed(s.a, size).Some?
    ensures var b := FrameAlloc(s.a, Needed(s.a, size).value, mem);
            && b.Some? && Valid(s.(a := b.value)) && Fits(Top(b.value), size)
            && forall g :: g in s.objects ==> Kept(s, s.(a := b.value), g)
  {
    var fs := Needed(s.a, size).value;
    NeededFacts(s.a, size);
    NewFrameFits(s.a, size, fs, mem);
    var b := FrameAlloc(s.a, fs, mem).value;
    forall i | 0 <= i < |s.a.frames| ensures b.frames[i] == s.a.frames[i] {
      assert b.frames[i] == b.frames[..|s.a.frames|][i];
    }
    GrownKeeps(s, b);
  }

  /** What an allocation must leave alone, and the object it makes. */
  ghost predicate Allocated(s: System, t: System, h: nat, size: nat) {
    && Valid(t) && t.scopes == s.scopes && t.freed == s.freed
    && t.objects.Keys == s.objects.Keys + {h}
    && h in t.objects && t.objects[h].scope == |s.scopes| - 1 && t.objects[h].size == size
    && forall g :: g in s.objects ==> Kept(s, t, g)
  }

  lemma AllocFirst(s: System, h: nat, size: nat, mem: Memory)
    requires Valid(s) && s.scopes != [] && h !in s.objects && Fits(Top(s.a), size)
    ensures Alloc(s, h, size, mem).Some? && Allocated(s, Alloc(s, h, size, mem).value, h, size)
  {
    PushAlloc(s, h, size);
    AllocIs(s, h, size, mem);
  }

  lemma AllocIs(s: System, h: nat, size: nat, mem: Memory)
    requires s.a.frames != [] && s.a.frameSize > 0 && s.scopes != [] && Fits(Top(s.a), size)
    ensures Alloc(s, h, size, mem) ==
            Some(s.(a := Push(s.a, Top(s.a).len, size),
                    objects := s.objects[h := Pushed(s.a, |s.scopes| - 1, Top(s.a).len, size)]))
  {
    assert Top(s.a).(len := Top(s.a).len) == Top(s.a);
  }

  lemma AllocAgain(s: System, b: Arena, h: nat, size: nat, mem: Memory)
    requires s.a.frames != [] && s.a.frameSize > 0 && s.scopes != [] && !Fits(Top(s.a), size)
    requires Needed(s.a, size).Some? && FrameAlloc(s.a, Needed(s.a, size).value, mem) == Some(b)
    requires b.frames != [] && b.frameSize > 0 && Fits(Top(b), size)
    ensures Alloc(s, h, size, mem) == Alloc(s.(a := b), h, size, mem)
  {}

  /** Allocating keeps the invariant and every byte of every object. */
  lemma AllocKeeps(s: System, h: nat, size: nat, mem: Memory)
    requires Valid(s) && s.scopes != [] && h !in s.objects && Sound(mem) && Alloc(s, h, size, mem).Some?
    ensures Allocated(s, Alloc(s, h, size, mem).value, h, size)
  {
    if Fits(Top(s.a), size) {
      AllocFirst(s, h, size, mem);
    } else {
      AddFrame(s, size, mem);
      var b := FrameAlloc(s.a, Needed(s.a, size).value, mem).value;
      AllocAgain(s, b, h, size, mem);
      AllocFirst(s.(a := b), h, size, mem);
    }
  }

  // ----- realloc -----

  /** Bytes written to a frame. */
  function Write(a: Arena, frame: nat, off: nat, bytes: seq<Byte>): Arena {
    if frame < |a.frames| && off + |bytes| <= |a.frames[frame].data| then
      var data := a.frames[frame].data;
      a.(frames := a.frames[frame := a.frames[frame].(data := data[..off] + bytes + data[off + |bytes|..])])
    else a
  }

  function Store(s: System, h: nat, i: nat, bytes: seq<Byte>): System
    requires h in s.objects
  {
    s.(a := Write(s.a, s.objects[h].frame, s.objects[h].off + i, bytes))
  }

  function Forget(s: System, h: nat): System {
    s.(objects := s.objects - {h})
  }

  /** The system after a reallocation through the innermost scope; the caller says how much is in use. */
  function Realloc(s: System, h: nat, old_: nat, new_: nat, mem: Memory): Option<System>
    requires s.a.frames != [] && s.a.frameSize > 0 && s.scopes != [] && h in s.objects && old_ <= s.objects[h].size
  {
    var o := s.objects[h];
    match ReallocFast(s.a, Place(o.frame, o.off), old_, new_)
    case Some(b) =>
      var o2 := if new_ <= old_ then o.(size := new_)
                else o.(size := new_, end := if b.frames == [] then 0 else Top(b).len);
      Some(s.(a := b, objects := s.objects[h := o2]))
    case None =>
      match Alloc(Forget(s, h), h, new_, mem)
      case None => None
      case Some(t) =>
        Some(Store(t, h, 0, Content(s, h)[..Min(old_, |Content(s, h)|)]))
  }

  /** The first n bytes agree, as far as there are that many. */
  predicate SameFirst(x: seq<Byte>, y: seq<Byte>, n: nat) {
    forall i :: 0 <= i < n && i < |x| && i < |y| ==> x[i] == y[i]
  }

  /** What a reallocation must leave alone, and what it keeps of the object itself. */
  ghost predicate Reallocated(s: System, t: System, h: nat, old_: nat, new_: nat) {
    && Valid(t) && t.scopes == s.scopes && t.freed == s.freed && t.objects.Keys == s.objects.Keys && h in t.objects
    && t.objects[h].scope == |s.scopes| - 1 && t.objects[h].size == new_ && |Content(t, h)| == new_
    && SameFirst(Content(t, h), Content(s, h), old_)
    && forall g :: g in s.objects && g != h ==> Kept(s, t, g)
  }

  lemma ForgetKeeps(s: System, h: nat)
    requires Valid(s)
    ensures Valid(Forget(s, h))
    ensures forall g :: g in s.objects && g != h ==> Kept(s, Forget(s, h), g)
  {}

  lemma InsideHasBytes(s: System, h: nat)
    requires Valid(s) && h in s.objects
    ensures |Content(s, h)| == s.objects[h].size
  {
    assert Inside(s.a, s.objects[h]);
  }

  /** An object can be changed as long as it stays apart from all others. */
  lemma ChangeObject(s: System, h: nat, o: Object)
    requires Valid(s) && h in s.objects && Inside(s.a, o) && o.scope + 1 == |s.scopes|
    requires forall g :: g in s.objects && g != h ==> Apart(s.objects[g], o)
    ensures Valid(s.(objects := s.objects[h := o]))
    ensures forall g :: g in s.objects && g != h ==> Kept(s, s.(objects := s.objects[h := o]), g)
  {
    AddObject(s, h, o);
  }

  /** An object with the same start holds the same bytes as far as both reach. */
  lemma SameStart(a: Arena, b: Arena, o: Object, p: Object)
    requires ArenaOk(a) && ArenaOk(b) && Inside(a, o) && Inside(b, p) && o.frame == p.frame && o.off == p.off
    requires a.frames[o.frame].data == b.frames[o.frame].data
    ensures |Bytes(b, p)| == p.size && |Bytes(a, o)| == o.size
    ensures SameFirst(Bytes(b, p), Bytes(a, o), o.size)
  {}

  /** The innermost object h takes another size without moving. */
  lemma Resize(s: System, b: Arena, h: nat, o: Object, old_: nat)
    requires Valid(s) && h in s.objects && s.objects[h].scope + 1 == |s.scopes| && old_ <= s.objects[h].size
    requires Valid(s.(a := b)) && forall g :: g in s.objects ==> Kept(s, s.(a := b), g)
    requires Inside(b, o) && o.scope == s.objects[h].scope && o.frame == s.objects[h].frame && o.off == s.objects[h].off
    requires s.a.frames[o.frame].data == b.frames[o.frame].data
    requires forall g :: g in s.objects && g != h ==> Apart(s.objects[g], o)
    ensures Reallocated(s, s.(a := b, objects := s.objects[h := o]), h, old_, o.size)
  {
    hide Valid, Inside, Kept, Apart, Bytes, SameFirst, ArenaOk;
    ValidArena(s);
    ValidArena(s.(a := b));
    ValidObject(s, h);
    SameStart(s.a, b, s.objects[h], o);
    FirstLess(Bytes(b, o), Content(s, h), s.objects[h].size, old_);
    ChangeObject(s.(a := b), h, o);
    KeptTwice(s, s.(a := b), s.(a := b, objects := s.objects[h := o]), h);
  }

  lemma FirstLess(x: seq<Byte>, y: seq<Byte>, n: nat, m: nat)
    requires SameFirst(x, y, n) && m <= n
    ensures SameFirst(x, y, m)
  {}

  lemma KeptTwice(s: System, t: System, u: System, h: nat)
    requires forall g :: g in s.objects ==> Kept(s, t, g)
    requires forall g :: g in t.objects && g != h ==> Kept(t, u, g)
    ensures forall g :: g in s.objects && g != h ==> Kept(s, u, g)
  {}

  lemma ShrunkInside(s: System, h: nat, new_: nat)
    requires Valid(s) && h in s.objects && new_ <= s.objects[h].size
    ensures Inside(s.a, s.objects[h].(size := new_))
    ensures forall g :: g in s.objects && g != h ==> Apart(s.objects[g], s.objects[h].(size := new_))
  {
    var o := s.objects[h];
    assert Inside(s.a, o);
    AlignMonotone(s.a.poison, o.off + new_, o.off + o.size, s.a.frames[o.frame].size);
    forall g | g in s.objects && g != h ensures Apart(s.objects[g], o.(size := new_)) {
      assert Apart(s.objects[g], o);
    }
  }

  lemma ShrinkKeeps(s: System, h: nat, old_: nat, new_: nat)
    requires Valid(s) && h in s.objects && s.objects[h].scope + 1 == |s.scopes| && new_ <= old_ <= s.objects[h].size
    ensures Reallocated(s, s.(objects := s.objects[h := s.objects[h].(size := new_)]), h, old_, new_)
  {
    ShrunkInside(s, h, new_);
    assert s.(a := s.a) == s;
    Resize(s, s.a, h, s.objects[h].(size := new_), old_);
  }

  lemma StillApart(a: Arena, q: Object, p: Object, o: Object)
    requires Inside(a, q) && Inside(a, p) && Apart(q, p) && p.frame + 1 == |a.frames|
    requires p.end == Top(a).len && o.frame == p.frame && o.off == p.off
    ensures Apart(q, o)
  {}

  /** An object that the last frame ends with stays apart from all others when it grows. */
  lemma GrowApart(s: System, h: nat, old_: nat, o: Object)
    requires Valid(s) && h in s.objects && old_ <= s.objects[h].size
    requires s.objects[h].frame + 1 == |s.a.frames| && Align(s.a.poison, s.objects[h].off + old_) == Top(s.a).len
    requires o.frame == s.objects[h].frame && o.off == s.objects[h].off
    ensures forall g :: g in s.objects && g != h ==> Apart(s.objects[g], o)
  {
    var p := s.objects[h];
    hide Valid, Align;
    ValidArena(s);
    ValidOthers(s, h);
    AlignMonotone(s.a.poison, p.off + old_, p.off + p.size, Top(s.a).size);
    AlignFacts(s.a.poison, p.off + old_);
    forall g | g in s.objects && g != h ensures Apart(s.objects[g], o) {
      StillApart(s.a, s.objects[g], p, o);
    }
  }

  lemma GrowKeeps(s: System, h: nat, old_: nat, new_: nat)
    requires Valid(s) && h in s.objects && s.objects[h].scope + 1 == |s.scopes| && old_ <= s.objects[h].size
    requires new_ > old_ && s.objects[h].frame + 1 == |s.a.frames|
    requires Align(s.a.poison, s.objects[h].off + old_) == Top(s.a).len
    requires Fits(Top(s.a).(len := s.objects[h].off), new_)
    ensures var o := s.objects[h];
            var b := Push(s.a, o.off, new_);
            b.frames != [] &&
            Reallocated(s, s.(a := b, objects := s.objects[h := o.(size := new_, end := Top(b).len)]), h, old_, new_)
  {
    var o := s.objects[h];
    var b := Push(s.a, o.off, new_);
    hide Valid, Align, Kept, Apart, ArenaOk, Reallocated, Push, Inside, Grown, FrameOk;
    ValidArena(s);
    ValidObject(s, h);
    InsideOff(s.a, o);
    AlignMonotone(s.a.poison, o.off + old_, o.off + new_, Top(s.a).size);
    PushInside(s.a, o, new_);
    GrownKeeps(s, b);
    var o2 := o.(size := new_, end := Top(b).len);
    GrowApart(s, h, old_, o2);
    Resize(s, b, h, o2, old_);
  }

  lemma InsideOff(a: Arena, o: Object)
    requires Inside(a, o)
    ensures HEADER <= o.off <= a.frames[o.frame].len && o.off % 8 == 0
  {}

  /** The object that was pushed on again from its start. */
  lemma PushInside(a: Arena, o: Object, size: nat)
    requires ArenaOk(a) && a.frames != [] && HEADER <= o.off <= Top(a).len && o.off % 8 == 0 && o.frame + 1 == |a.frames|
    requires Fits(Top(a).(len := o.off), size) && Taken(a.poison, Top(a).(len := o.off), size).len >= Top(a).len
    ensures var b := Push(a, o.off, size);
            && b.frames != [] && ArenaOk(b) && Grown(a, b) && Inside(b, o.(size := size, end := Top(b).len))
            && b.frames[o.frame].data == a.frames[o.frame].data
  {
    PushOk(a, o.off, size);
  }

  /** Data that bytes were written into. */
  function Written(data: seq<Byte>, off: nat, bytes: seq<Byte>): (r: seq<Byte>)
    requires off + |bytes| <= |data|
    ensures |r| == |data|
  {
    data[..off] + bytes + data[off + |bytes|..]
  }

  lemma WrittenAt(data: seq<Byte>, off: nat, bytes: seq<Byte>, k: nat)
    requires off + |bytes| <= |data| && k < |data|
    ensures Written(data, off, bytes)[k] == if off <= k < off + |bytes| then bytes[k - off] else data[k]
  {}

  lemma WriteSlices(data: seq<Byte>, off: nat, bytes: seq<Byte>, lo: nat, hi: nat)
    requires off + |bytes| <= |data| && lo <= hi <= |data| && (bytes == [] || lo == hi || hi <= off || off + |bytes| <= lo)
    ensures Written(data, off, bytes)[lo..hi] == data[lo..hi]
  {
    hide Written;
    forall k | lo <= k < hi ensures Written(data, off, bytes)[k] == data[k] {
      WrittenAt(data, off, bytes, k);
    }
  }

  lemma WriteOwn(data: seq<Byte>, lo: nat, size: nat, i: nat, bytes: seq<Byte>)
    requires lo + size <= |data| && i + |bytes| <= size
    ensures Written(data, lo + i, bytes)[lo..lo + size] == Written(data[lo..lo + size], i, bytes)
  {
    hide Written;
    var own := data[lo..lo + size];
    forall k | 0 <= k < size ensures Written(data, lo + i, bytes)[lo + k] == Written(own, i, bytes)[k] {
      WrittenAt(data, lo + i, bytes, lo + k);
      WrittenAt(own, i, bytes, k);
    }
    assert forall k :: 0 <= k < size ==> Written(data, lo + i, bytes)[lo..lo + size][k] == Written(own, i, bytes)[k];
  }

  /** A store changes only the bytes that it names. */
  lemma WriteBytes(a: Arena, o: Object, i: nat, bytes: seq<Byte>)
    requires ArenaOk(a) && Inside(a, o) && i + |bytes| <= o.size
    ensures ArenaOk(Write(a, o.frame, o.off + i, bytes))
    ensures Bytes(Write(a, o.frame, o.off + i, bytes), o) == Bytes(a, o)[..i] + bytes + Bytes(a, o)[i + |bytes|..]
  {
    WriteOwn(a.frames[o.frame].data, o.off, o.size, i, bytes);
  }

  lemma WriteApart(a: Arena, o: Object, i: nat, bytes: seq<Byte>, p: Object)
    requires ArenaOk(a) && Inside(a, o) && Inside(a, p) && i + |bytes| <= o.size && Apart(o, p)
    ensures Bytes(Write(a, o.frame, o.off + i, bytes), p) == Bytes(a, p)
  {
    if p.frame == o.frame {
      WriteSlices(a.frames[o.frame].data, o.off + i, bytes, p.off, p.off + p.size);
    }
  }

  lemma StoreOthers(s: System, h: nat, i: nat, bytes: seq<Byte>, g: nat)
    requires Valid(s) && h in s.objects && i + |bytes| <= s.objects[h].size && g in s.objects && g != h
    ensures Kept(s, Store(s, h, i, bytes), g)
  {
    assert Inside(s.a, s.objects[h]) && Inside(s.a, s.objects[g]) && Apart(s.objects[h], s.objects[g]);
    WriteApart(s.a, s.objects[h], i, bytes, s.objects[g]);
  }

  lemma StoreValid(s: System, h: nat, i: nat, bytes: seq<Byte>)
    requires Valid(s) && h in s.objects && i + |bytes| <= s.objects[h].size
    ensures Valid(Store(s, h, i, bytes)) && |Content(s, h)| == s.objects[h].size
    ensures Content(Store(s, h, i, bytes), h) == Content(s, h)[..i] + bytes + Content(s, h)[i + |bytes|..]
  {
    assert Inside(s.a, s.objects[h]);
    WriteBytes(s.a, s.objects[h], i, bytes);
    WriteGrown(s, Store(s, h, i, bytes).a);
  }

  /** Storing bytes in an object changes no other. */
  lemma StoreKeeps(s: System, h: nat, i: nat, bytes: seq<Byte>)
    requires Valid(s) && h in s.objects && i + |bytes| <= s.objects[h].size
    ensures |Content(s, h)| == s.objects[h].size
    ensures var t := Store(s, h, i, bytes);
            && Valid(t) && (forall g :: g in s.objects && g != h ==> Kept(s, t, g))
            && Content(t, h) == Content(s, h)[..i] + bytes + Content(s, h)[i + |bytes|..]
  {
    StoreValid(s, h, i, bytes);
    forall g | g in s.objects && g != h ensures Kept(s, Store(s, h, i, bytes), g) {
      StoreOthers(s, h, i, bytes, g);
    }
  }

  lemma WriteGrown(s: System, b: Arena)
    requires Valid(s) && ArenaOk(b) && |b.frames| == |s.a.frames| && b.refs == s.a.refs && b.poison == s.a.poison
    requires forall i :: 0 <= i < |b.frames| ==> b.frames[i].size == s.a.frames[i].size && b.frames[i].len == s.a.frames[i].len
    ensures Valid(s.(a := b))
  {
    forall h | h in s.objects ensures Inside(b, s.objects[h]) {
      assert Inside(s.a, s.objects[h]);
    }
    forall i | 0 <= i < |s.scopes| ensures ScopeOk(b, s.scopes[i]) {
      assert ScopeOk(s.a, s.scopes[i]);
    }
  }

  lemma FirstBytes(bytes: seq<Byte>, old_: seq<Byte>, from: seq<Byte>)
    requires |bytes| <= |old_| && bytes <= from
    ensures var r := old_[..0] + bytes + old_[0 + |bytes|..];
            |r| == |old_| && SameFirst(r, from, |bytes|)
  {}

  /** The object h is allocated again, and its bytes are stored there. */
  lemma CopyKeeps(s: System, t: System, h: nat, bytes: seq<Byte>, new_: nat)
    requires Valid(s) && h in s.objects && Allocated(Forget(s, h), t, h, new_) && |bytes| <= new_
    requires bytes <= Content(s, h)
    ensures Reallocated(s, Store(t, h, 0, bytes), h, |bytes|, new_)
  {
    hide Valid, Kept, Content, Store;
    ForgetKeeps(s, h);
    StoreKeeps(t, h, 0, bytes);
    FirstBytes(bytes, Content(t, h), Content(s, h));
    MovedKept(s, t, Store(t, h, 0, bytes), h);
    StoreIs(t, h, 0, bytes);
  }

  lemma StoreIs(t: System, h: nat, i: nat, bytes: seq<Byte>)
    requires h in t.objects
    ensures Store(t, h, i, bytes).objects == t.objects && Store(t, h, i, bytes).scopes == t.scopes
    ensures Store(t, h, i, bytes).freed == t.freed
  {}

  lemma MoveKeeps(s: System, h: nat, old_: nat, new_: nat, mem: Memory)
    requires Valid(s) && s.scopes != [] && h in s.objects && old_ <= s.objects[h].size && old_ <= new_ && Sound(mem)
    requires Alloc(Forget(s, h), h, new_, mem).Some?
    ensures var t := Alloc(Forget(s, h), h, new_, mem).value;
            h in t.objects && Reallocated(s, Store(t, h, 0, Content(s, h)[..Min(old_, |Content(s, h)|)]), h, old_, new_)
  {
    ForgetKeeps(s, h);
    AllocKeeps(Forget(s, h), h, new_, mem);
    InsideHasBytes(s, h);
    CopyKeeps(s, Alloc(Forget(s, h), h, new_, mem).value, h, Content(s, h)[..old_], new_);
  }

  lemma MovedKept(s: System, t: System, u: System, h: nat)
    requires forall g :: g in s.objects && g != h ==> Kept(s, Forget(s, h), g)
    requires forall g :: g in Forget(s, h).objects ==> Kept(Forget(s, h), t, g)
    requires forall g :: g in t.objects && g != h ==> Kept(t, u, g)
    ensures forall g :: g in s.objects && g != h ==> Kept(s, u, g)
  {}

  /**
   Reallocating an object of the innermost scope keeps the invariant, the bytes in
   use of the object itself and every byte of all others, on every path.
   */
  lemma ReallocKeeps(s: System, h: nat, old_: nat, new_: nat, mem: Memory)
    requires Valid(s) && s.scopes != [] && h in s.objects && old_ <= s.objects[h].size && Sound(mem)
    requires s.objects[h].scope + 1 == |s.scopes| && Realloc(s, h, old_, new_, mem).Some?
    ensures Reallocated(s, Realloc(s, h, old_, new_, mem).value, h, old_, new_)
  {
    var o := s.objects[h];
    assert Inside(s.a, o);
    if new_ <= old_ {
      assert s.(a := s.a) == s;
      ShrinkKeeps(s, h, old_, new_);
    } else if ReallocFast(s.a, Place(o.frame, o.off), old_, new_).Some? {
      GrowKeeps(s, h, old_, new_);
    } else {
      MoveKeeps(s, h, old_, new_, mem);
    }
  }

  /** The object need not move: it does not grow, or it ends the last frame, which has room. */
  predicate StaysPut(s: System, h: nat, old_: nat, new_: nat)
    requires s.a.frames != [] && h in s.objects
  {
    var o := s.objects[h];
    || new_ <= old_
    || (o.frame == |s.a.frames| - 1 && Align(s.a.poison, o.off + old_) == Top(s.a).len && o.off + new_ <= Top(s.a).size)
  }

  /**
   A reallocation fails exactly if the object must move and its new size cannot be
   allocated, and the object stays where it is exactly if it need not move.
   */
  lemma ReallocFails(s: System, h: nat, old_: nat, new_: nat, mem: Memory)
    requires Valid(s) && s.scopes != [] && h in s.objects && old_ <= s.objects[h].size && Sound(mem)
    ensures Realloc(s, h, old_, new_, mem).None? <==>
            && !StaysPut(s, h, old_, new_) && Top(s.a).len + new_ > Top(s.a).size
            && NeverReaches(s.a.frameSize, s.a.poison + (new_ + HEADER))
    ensures StaysPut(s, h, old_, new_) ==>
              && Realloc(s, h, old_, new_, mem).Some? && h in Realloc(s, h, old_, new_, mem).value.objects
              && var o := Realloc(s, h, old_, new_, mem).value.objects[h];
                 o.frame == s.objects[h].frame && o.off == s.objects[h].off && o.size == new_
  {
    hide Valid, NeverReaches, Malloc, Align, Content, Write;
    ValidArena(s);
    ReallocFastIff(s.a, Place(s.objects[h].frame, s.objects[h].off), old_, new_);
    MallocFails(s.a, new_, mem);
  }
}
