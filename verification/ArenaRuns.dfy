/** Runs of the arena: scopes that are entered and left, cleanups, and the release of everything. */
module ArenaRuns {
  import opened Wrappers
  import opened Arithmetic
  import opened Arena
  import opened ArenaScopes

  /** Size of a cleanup record. */
  const CLEANUP: nat := 24

  function Enter(s: System): System
    requires s.a.frames != []
  {
    var sc := Scope(|s.a.frames|, Top(s.a).len, s.a.bytes.now, s.a.frameStat.now, s.a.scopeStat.now, s.a.refs + 1, []);
    s.(a := s.a.(refs := s.a.refs + 1, scopeStat := Add(s.a.scopeStat, 1)), scopes := s.scopes + [sc])
  }

  /** Frames are released from the last one on, until the given one is the last. */
  function PopTo(frames: seq<Frame>, n: nat): seq<Frame> {
    if n <= |frames| then frames[..n] else []
  }

  function Restored(st: Stat, now: nat): Stat {
    st.(now := now)
  }

  /** The last frame cut to a length that it has reached. */
  function Cut(frames: seq<Frame>, len: nat): seq<Frame> {
    var n := |frames|;
    if n == 0 then [] else frames[n - 1 := frames[n - 1].(len := if len <= frames[n - 1].len then len else 0)]
  }

  function LeaveArena(a: Arena, sc: Scope): Arena {
    var frames := PopTo(a.frames, if a.refs == 1 then 0 else sc.frames);
    a.(frames := Cut(frames, sc.len),
       bytes := Restored(a.bytes, sc.bytesNow), frameStat := Restored(a.frameStat, sc.framesNow),
       scopeStat := Restored(a.scopeStat, sc.scopesNow), refs := a.refs - 1)
  }

  /** Leaving the innermost scope; its objects are gone. */
  function Leave(s: System): System
    requires s.scopes != []
  {
    var n := |s.scopes| - 1;
    s.(a := LeaveArena(s.a, s.scopes[n]), scopes := s.scopes[..n],
       objects := map h | h in s.objects && s.objects[h].scope < n :: s.objects[h])
  }

  /** arena_free, which the last scope completes if there are scopes. */
  function Free(s: System): System {
    if s.a.refs > 1 then s.(a := s.a.(refs := s.a.refs - 1), freed := true)
    else s.(a := LeaveArena(s.a, Scope(0, 0, 0, 0, 0, 0, [])), objects := map[], freed := true)
  }

  lemma EnterScopes(s: System)
    requires Valid(s)
    ensures ScopesOk(Enter(s))
  {
    var t := Enter(s);
    forall i | 0 <= i < |t.scopes| ensures ScopeOk(t.a, t.scopes[i]) {
      if i < |s.scopes| {
        assert ScopeOk(s.a, s.scopes[i]);
      }
    }
    forall i, j | 0 <= i < j < |t.scopes| ensures Nested(t.scopes[i], t.scopes[j]) {
      assert ScopeOk(s.a, s.scopes[i]);
    }
  }

  lemma EnterObjects(s: System)
    requires Valid(s)
    ensures ObjectsOk(Enter(s))
  {
    var t := Enter(s);
    forall h | h in t.objects ensures Inside(t.a, t.objects[h]) {
      assert Inside(s.a, s.objects[h]);
    }
    forall h, i | h in t.objects && t.objects[h].scope < i < |t.scopes| ensures Before(t.objects[h], t.scopes[i]) {
      assert Inside(s.a, s.objects[h]);
      if i < |s.scopes| {
        assert Before(s.objects[h], s.scopes[i]);
      }
    }
  }

  lemma EnterKeeps(s: System)
    requires Valid(s)
    ensures Valid(Enter(s)) && forall h :: h in s.objects ==> Kept(s, Enter(s), h)
  {
    hide ScopesOk, ObjectsOk;
    EnterScopes(s);
    EnterObjects(s);
  }

  /** The arena after leaving a scope that is not the last use of it. */
  lemma LeaveFrames(s: System)
    requires Valid(s) && s.scopes != [] && s.a.refs > 1
    ensures var n := |s.scopes| - 1;
            var sc, b := s.scopes[n], Leave(s).a;
            && ArenaOk(b) && |b.frames| == sc.frames > 0 && Top(b).len == sc.len
            && (forall i :: 0 <= i < sc.frames ==> b.frames[i].size == s.a.frames[i].size && b.frames[i].data == s.a.frames[i].data)
            && (forall i :: 0 <= i < sc.frames - 1 ==> b.frames[i].len == s.a.frames[i].len)
  {
    var n := |s.scopes| - 1;
    assert ScopeOk(s.a, s.scopes[n]);
  }

  lemma LeaveObject(s: System, h: nat)
    requires Valid(s) && s.scopes != [] && s.a.refs > 1 && h in Leave(s).objects
    ensures Inside(Leave(s).a, s.objects[h]) && Kept(s, Leave(s), h)
  {
    LeaveFrames(s);
    var n := |s.scopes| - 1;
    assert Inside(s.a, s.objects[h]) && Before(s.objects[h], s.scopes[n]);
  }

  lemma LeaveScopes(s: System)
    requires Valid(s) && s.scopes != [] && s.a.refs > 1
    ensures ScopesOk(Leave(s))
  {
    LeaveFrames(s);
    var n, t := |s.scopes| - 1, Leave(s);
    forall i | 0 <= i < n ensures ScopeOk(t.a, t.scopes[i]) {
      assert ScopeOk(s.a, s.scopes[i]) && ScopeOk(s.a, s.scopes[n]) && Nested(s.scopes[i], s.scopes[n]);
    }
  }

  /** Leaving a scope keeps the invariant and every object of the outer scopes. */
  lemma LeaveKeeps(s: System)
    requires Valid(s) && s.scopes != [] && s.a.refs > 1
    ensures Valid(Leave(s))
    ensures forall h :: h in s.objects && s.objects[h].scope < |s.scopes| - 1 ==> Kept(s, Leave(s), h)
  {
    LeaveFrames(s);
    LeaveScopes(s);
    var t := Leave(s);
    forall h | h in t.objects ensures Inside(t.a, t.objects[h]) && Kept(s, t, h) {
      LeaveObject(s, h);
    }
    forall h, i | h in t.objects && t.objects[h].scope < i < |t.scopes| ensures Before(t.objects[h], t.scopes[i]) {
      assert Before(s.objects[h], s.scopes[i]);
    }
  }

  // ----- what a scope remembers -----

  /** s is a state inside a scope that was entered in state e. */
  ghost predicate Within(e: System, s: System) {
    var d := |e.scopes|;
    && e.a.frames != [] && |s.scopes| > d && s.scopes[..d] == e.scopes
    && s.scopes[d].frames == |e.a.frames| && s.scopes[d].len == Top(e.a).len
    && s.scopes[d].bytesNow == e.a.bytes.now && s.scopes[d].framesNow == e.a.frameStat.now
    && s.scopes[d].scopesNow == e.a.scopeStat.now
    && |s.a.frames| >= |e.a.frames|
    && (forall i :: 0 <= i < |e.a.frames| ==> s.a.frames[i].size == e.a.frames[i].size)
    && (forall i :: 0 <= i < |e.a.frames| - 1 ==> s.a.frames[i].len == e.a.frames[i].len)
    && (forall h :: h in e.objects ==> h in s.objects && s.objects[h] == e.objects[h])
    && (forall h :: h in s.objects && s.objects[h].scope < d ==> h in e.objects)
  }

  /** The arena is as it was: the same frames filled as far, and the same current statistics. */
  predicate SameArena(e: System, s: System) {
    && |s.a.frames| == |e.a.frames|
    && (forall i :: 0 <= i < |s.a.frames| ==>
          s.a.frames[i].size == e.a.frames[i].size && s.a.frames[i].len == e.a.frames[i].len)
    && s.a.bytes.now == e.a.bytes.now && s.a.frameStat.now == e.a.frameStat.now && s.a.scopeStat.now == e.a.scopeStat.now
  }

  lemma EnterIsWithin(e: System)
    requires Valid(e)
    ensures Within(e, Enter(e))
  {}

  lemma LeaveRestoresArena(e: System, s: System)
    requires Valid(e) && Valid(s) && s.a.refs > 1 && Within(e, s) && |s.scopes| == |e.scopes| + 1
    ensures SameArena(e, Leave(s))
  {
    LeaveFrames(s);
  }

  lemma LeaveRestoresObjects(e: System, s: System)
    requires Valid(e) && s.scopes != [] && Within(e, s) && |s.scopes| == |e.scopes| + 1
    ensures Leave(s).objects == e.objects
  {
    assert forall h :: h in e.objects ==> e.objects[h].scope < |e.scopes|;
  }

  /** Leaving a scope restores the arena, and leaves exactly the objects that there were when it was entered. */
  lemma LeaveRestores(e: System, s: System)
    requires Valid(e) && Valid(s) && s.a.refs > 1 && Within(e, s) && |s.scopes| == |e.scopes| + 1
    ensures SameArena(e, Leave(s)) && Leave(s).objects == e.objects && Leave(s).scopes == e.scopes
    ensures forall h :: h in e.objects ==> Content(Leave(s), h) == Content(s, h)
  {
    LeaveRestoresArena(e, s);
    LeaveRestoresObjects(e, s);
    forall h | h in e.objects ensures Content(Leave(s), h) == Content(s, h) {
      LeaveObject(s, h);
    }
  }

  // ----- what an operation does to the frames below -----

  /** Only the last frame may have taken more, and frames may have been added. */
  predicate Upward(a: Arena, b: Arena) {
    && |b.frames| >= |a.frames| > 0 && b.refs == a.refs
    && (forall i :: 0 <= i < |a.frames| ==> b.frames[i].size == a.frames[i].size)
    && (forall i :: 0 <= i < |a.frames| - 1 ==> b.frames[i].len == a.frames[i].len)
    && |b.frames| - |a.frames| == b.frameStat.total - a.frameStat.total
  }

  lemma AllocUpward(s: System, h: nat, size: nat, mem: Memory)
    requires Valid(s) && s.scopes != [] && Sound(mem) && Alloc(s, h, size, mem).Some?
    ensures Upward(s.a, Alloc(s, h, size, mem).value.a)
  {
    if !Fits(Top(s.a), size) {
      var b := FrameAlloc(s.a, Needed(s.a, size).value, mem).value;
      assert forall i :: 0 <= i < |s.a.frames| ==> b.frames[i] == s.a.frames[i];
      assert Upward(s.a, b);
    }
  }

  lemma StoreUpward(a: Arena, t: System, h: nat, i: nat, bytes: seq<Byte>)
    requires h in t.objects && Upward(a, t.a)
    ensures Upward(a, Store(t, h, i, bytes).a)
  {}

  lemma FastUpward(a: Arena, p: Place, old_: nat, new_: nat)
    requires a.frames != [] && ReallocFast(a, p, old_, new_).Some?
    ensures Upward(a, ReallocFast(a, p, old_, new_).value)
  {
    hide Align;
  }

  lemma AllocHas(s: System, h: nat, size: nat, mem: Memory)
    requires s.a.frames != [] && s.a.frameSize > 0 && s.scopes != [] && Alloc(s, h, size, mem).Some?
    ensures h in Alloc(s, h, size, mem).value.objects
  {
    hide Malloc;
  }

  lemma ReallocUpward(s: System, h: nat, old_: nat, new_: nat, mem: Memory)
    requires Valid(s) && s.scopes != [] && h in s.objects && old_ <= s.objects[h].size && Sound(mem)
    requires Realloc(s, h, old_, new_, mem).Some?
    ensures Upward(s.a, Realloc(s, h, old_, new_, mem).value.a)
  {
    hide Valid, Content, Alloc, Store, ReallocFast, Upward, Sound;
    ValidArena(s);
    var o := s.objects[h];
    if ReallocFast(s.a, Place(o.frame, o.off), old_, new_).Some? {
      FastUpward(s.a, Place(o.frame, o.off), old_, new_);
    } else {
      ForgetKeeps(s, h);
      AllocUpward(Forget(s, h), h, new_, mem);
      AllocHas(Forget(s, h), h, new_, mem);
      var t := Alloc(Forget(s, h), h, new_, mem).value;
      StoreUpward(s.a, t, h, 0, Content(s, h)[..Min(old_, |Content(s, h)|)]);
    }
  }

  /** What keeps a state inside the scope. */
  lemma StaysWithin(e: System, s: System, t: System)
    requires Valid(e) && Valid(s) && Within(e, s) && Upward(s.a, t.a)
    requires |t.scopes| >= |s.scopes| && t.scopes[..|e.scopes|] == s.scopes[..|e.scopes|]
    requires t.scopes[|e.scopes|].(cleanups := []) == s.scopes[|e.scopes|].(cleanups := [])
    requires forall h :: h in s.objects && s.objects[h].scope < |s.scopes| - 1 ==> h in t.objects && t.objects[h] == s.objects[h]
    requires forall h :: h in t.objects && t.objects[h].scope < |s.scopes| - 1 ==> h in s.objects && s.objects[h] == t.objects[h]
    ensures Within(e, t)
  {
    forall h | h in e.objects ensures h in t.objects && t.objects[h] == e.objects[h] {
      assert e.objects[h].scope < |e.scopes|;
    }
  }

  lemma LeaveStaysWithin(e: System, s: System)
    requires Valid(e) && Valid(s) && s.a.refs > 1 && Within(e, s) && |s.scopes| > |e.scopes| + 1
    ensures Within(e, Leave(s))
  {
    var d, n := |e.scopes|, |s.scopes| - 1;
    LeaveFrames(s);
    assert Nested(s.scopes[d], s.scopes[n]);
    assert s.scopes[..n][..d] == s.scopes[..d];
    forall h | h in e.objects ensures h in Leave(s).objects && Leave(s).objects[h] == e.objects[h] {
      assert e.objects[h].scope < |e.scopes|;
    }
  }

  // ----- runs -----

  datatype Op =
    | OpMalloc(h: nat, size: nat)
    | OpRealloc(h: nat, used: nat, size: nat)
    | OpStore(h: nat, i: nat, bytes: seq<Byte>)
    | OpEnter
    | OpLeave
    | OpCleanup(h: nat)

  /** Cleanups are numbered in the order of their registration; `ran` has those that were run. */
  datatype World = World(s: System, ran: seq<nat>, count: nat)

  /** What is asked of callers: allocations and reallocations go through the innermost scope. */
  predicate Allowed(s: System, op: Op) {
    match op
    case OpMalloc(h, _) => s.scopes != [] && h !in s.objects
    case OpRealloc(h, used, _) => h in s.objects && s.objects[h].scope + 1 == |s.scopes| && used <= s.objects[h].size
    case OpStore(h, i, bytes) => h in s.objects && i + |bytes| <= s.objects[h].size
    case OpEnter => true
    case OpLeave => s.scopes != []
    case OpCleanup(h) => s.scopes != [] && h !in s.objects
  }

  /** Puts a cleanup in front of those of the innermost scope. */
  function Register(s: System, c: nat): System
    requires s.scopes != []
  {
    var n := |s.scopes| - 1;
    s.(scopes := s.scopes[n := s.scopes[n].(cleanups := [c] + s.scopes[n].cleanups)])
  }

  /** Leaving a scope runs its cleanups. */
  function LeaveWorld(w: World): World
    requires w.s.scopes != []
  {
    World(Leave(w.s), w.ran + w.s.scopes[|w.s.scopes| - 1].cleanups, w.count)
  }

  /** The world after an operation, unless the operation is not allowed or ends the program. */
  function Step(w: World, op: Op, mem: Memory): Option<World>
    requires w.s.a.frames != [] && w.s.a.frameSize > 0
  {
    if !Allowed(w.s, op) then None
    else
      match op
      case OpMalloc(h, size) => With(w, Alloc(w.s, h, size, mem))
      case OpRealloc(h, used, size) => With(w, Realloc(w.s, h, used, size, mem))
      case OpStore(h, i, bytes) => Some(w.(s := Store(w.s, h, i, bytes)))
      case OpEnter => Some(w.(s := Enter(w.s)))
      case OpLeave => Some(LeaveWorld(w))
      case OpCleanup(h) =>
        match Alloc(w.s, h, CLEANUP, mem)
        case None => None
        case Some(t) => if t.scopes == [] then None else Some(World(Register(t, w.count), w.ran, w.count + 1))
  }

  function With(w: World, s: Option<System>): Option<World> {
    match s case None => None case Some(t) => Some(w.(s := t))
  }

  lemma RegisterKeeps(s: System, c: nat)
    requires Valid(s) && s.scopes != []
    ensures Valid(Register(s, c)) && forall h :: h in s.objects ==> Kept(s, Register(s, c), h)
  {
    var t := Register(s, c);
    forall i | 0 <= i < |t.scopes| ensures ScopeOk(t.a, t.scopes[i]) {
      assert ScopeOk(s.a, s.scopes[i]);
    }
    forall i, j | 0 <= i < j < |t.scopes| ensures Nested(t.scopes[i], t.scopes[j]) {
      assert Nested(s.scopes[i], s.scopes[j]);
    }
    forall h, i | h in t.objects && t.objects[h].scope < i < |t.scopes| ensures Before(t.objects[h], t.scopes[i]) {
      assert Before(s.objects[h], s.scopes[i]);
    }
  }

  /** Every allowed operation keeps the invariant while the arena is not freed. */
  lemma StepKeeps(w: World, op: Op, mem: Memory)
    requires Valid(w.s) && !w.s.freed && Sound(mem) && Step(w, op, mem).Some?
    ensures Valid(Step(w, op, mem).value.s) && !Step(w, op, mem).value.s.freed
  {
    match op
    case OpMalloc(h, size) => AllocKeeps(w.s, h, size, mem);
    case OpRealloc(h, used, size) => ReallocKeeps(w.s, h, used, size, mem);
    case OpStore(h, i, bytes) => StoreKeeps(w.s, h, i, bytes);
    case OpEnter => EnterKeeps(w.s);
    case OpLeave => LeaveKeeps(w.s);
    case OpCleanup(h) =>
      AllocKeeps(w.s, h, CLEANUP, mem);
      RegisterKeeps(Alloc(w.s, h, CLEANUP, mem).value, w.count);
  }

  /** An object of a size can be allocated. */
  ghost predicate HasRoom(a: Arena, size: nat)
    requires a.frames != []
  {
    Top(a).len + size <= Top(a).size || !NeverReaches(a.frameSize, a.poison + (size + HEADER))
  }

  /** An operation that is asked for as it should be ends the program only where an allocation has no room. */
  lemma StepFails(w: World, op: Op, mem: Memory)
    requires Valid(w.s) && Sound(mem) && Allowed(w.s, op)
    ensures w.s.a.frames != [] && w.s.a.frameSize > 0
    ensures Step(w, op, mem).None? <==>
            match op
            case OpMalloc(_, size) => !HasRoom(w.s.a, size)
            case OpRealloc(h, used, size) => !StaysPut(w.s, h, used, size) && !HasRoom(w.s.a, size)
            case OpCleanup(_) => !HasRoom(w.s.a, 24)
            case _ => false
  {
    hide Valid, Malloc, Realloc, NeverReaches, StaysPut;
    ValidArena(w.s);
    match op
    case OpMalloc(_, size) => MallocFails(w.s.a, size, mem);
    case OpRealloc(h, used, size) => ReallocFails(w.s, h, used, size, mem);
    case OpCleanup(_) => MallocFails(w.s.a, CLEANUP, mem);
    case _ =>
  }

  /** The object that an operation names. */
  predicate Names(op: Op, h: nat) {
    match op
    case OpMalloc(g, _) => g == h
    case OpRealloc(g, _, _) => g == h
    case OpStore(g, _, _) => g == h
    case OpEnter => false
    case OpLeave => false
    case OpCleanup(g) => g == h
  }

  /** Every operation keeps the place and the bytes of every object that it does not name and that survives it. */
  lemma StepKeepsObjects(w: World, op: Op, mem: Memory, h: nat)
    requires Valid(w.s) && !w.s.freed && Sound(mem) && Step(w, op, mem).Some? && h in w.s.objects && !Names(op, h)
    requires op.OpLeave? ==> w.s.objects[h].scope < |w.s.scopes| - 1
    ensures Kept(w.s, Step(w, op, mem).value.s, h)
  {
    match op
    case OpMalloc(g, size) => AllocKeeps(w.s, g, size, mem);
    case OpRealloc(g, used, size) => ReallocKeeps(w.s, g, used, size, mem);
    case OpStore(g, i, bytes) => StoreKeeps(w.s, g, i, bytes);
    case OpEnter => EnterKeeps(w.s);
    case OpLeave => LeaveKeeps(w.s);
    case OpCleanup(g) =>
      AllocKeeps(w.s, g, CLEANUP, mem);
      var t := Alloc(w.s, g, CLEANUP, mem).value;
      RegisterKeeps(t, w.count);
      assert Kept(w.s, t, h) && Kept(t, Register(t, w.count), h);
  }

  lemma WithinDepth(e: System, s: System)
    requires Within(e, s)
    ensures |s.scopes| > |e.scopes|
  {}

  /** Of the objects, only an innermost one is new or changed. */
  lemma StaysWithinBut(e: System, s: System, t: System, h: nat)
    requires Valid(e) && Valid(s) && Within(e, s) && Upward(s.a, t.a) && t.scopes == s.scopes
    requires (forall g :: g in s.objects && g != h ==> Kept(s, t, g)) && t.objects.Keys == s.objects.Keys + {h}
    requires h in t.objects && t.objects[h].scope == |s.scopes| - 1
    requires h in s.objects ==> s.objects[h].scope == |s.scopes| - 1
    ensures Within(e, t)
  {
    hide Valid, Upward, Content;
    WithinDepth(e, s);
    forall g | g in s.objects && g != h ensures g in t.objects && t.objects[g] == s.objects[g] {
      assert Kept(s, t, g);
    }
    assert forall g :: g in t.objects && g != h ==> g in t.objects.Keys && g in s.objects;
    StaysWithin(e, s, t);
  }

  lemma AllocStays(e: System, s: System, h: nat, size: nat, mem: Memory)
    requires Valid(e) && Valid(s) && s.scopes != [] && h !in s.objects && Sound(mem) && Within(e, s)
    requires Alloc(s, h, size, mem).Some?
    ensures Within(e, Alloc(s, h, size, mem).value)
  {
    AllocKeeps(s, h, size, mem);
    AllocUpward(s, h, size, mem);
    StaysWithinBut(e, s, Alloc(s, h, size, mem).value, h);
  }

  lemma ReallocStays(e: System, s: System, h: nat, used: nat, size: nat, mem: Memory)
    requires Valid(e) && Valid(s) && s.scopes != [] && Sound(mem) && Within(e, s)
    requires h in s.objects && s.objects[h].scope == |s.scopes| - 1 && used <= s.objects[h].size
    requires Realloc(s, h, used, size, mem).Some?
    ensures Within(e, Realloc(s, h, used, size, mem).value)
  {
    hide Valid, Realloc, Kept, Upward, Within;
    ValidArena(s);
    ReallocKeeps(s, h, used, size, mem);
    ReallocUpward(s, h, used, size, mem);
    assert s.objects.Keys + {h} == s.objects.Keys;
    StaysWithinBut(e, s, Realloc(s, h, used, size, mem).value, h);
  }

  lemma StoreStays(e: System, s: System, h: nat, i: nat, bytes: seq<Byte>)
    requires Valid(e) && Valid(s) && h in s.objects && Within(e, s)
    ensures Within(e, Store(s, h, i, bytes))
  {
    StoreUpward(s.a, s, h, i, bytes);
    StaysWithin(e, s, Store(s, h, i, bytes));
  }

  lemma EnterStays(e: System, s: System)
    requires Within(e, s) && s.a.frames != []
    ensures Within(e, Enter(s))
  {
    assert Enter(s).scopes[..|e.scopes|] == s.scopes[..|e.scopes|];
  }

  lemma RegisterStays(e: System, s: System, c: nat)
    requires Within(e, s)
    ensures Within(e, Register(s, c))
  {
    assert Register(s, c).scopes[..|e.scopes|] == s.scopes[..|e.scopes|];
  }

  lemma StepStaysWithin(e: System, w: World, op: Op, mem: Memory)
    requires Valid(e) && Valid(w.s) && !w.s.freed && Sound(mem) && Step(w, op, mem).Some? && Within(e, w.s)
    requires op.OpLeave? ==> |w.s.scopes| > |e.scopes| + 1
    ensures Within(e, Step(w, op, mem).value.s)
  {
    hide Valid, Within, Alloc, Realloc, Kept;
    ValidArena(w.s);
    WithinDepth(e, w.s);
    match op
    case OpMalloc(h, size) => AllocStays(e, w.s, h, size, mem);
    case OpRealloc(h, used, size) => ReallocStays(e, w.s, h, used, size, mem);
    case OpStore(h, i, bytes) => StoreStays(e, w.s, h, i, bytes);
    case OpEnter => EnterStays(e, w.s);
    case OpLeave => LeaveStaysWithin(e, w.s);
    case OpCleanup(h) =>
      AllocStays(e, w.s, h, CLEANUP, mem);
      RegisterStays(e, Alloc(w.s, h, CLEANUP, mem).value, w.count);
  }

  // ----- main results -----

  /** The world after a run; fresh memory can hold anything each time. */
  function Run(w: World, ops: seq<Op>, mem: nat -> Memory): Option<World>
    decreases |ops|
  {
    if ops == [] then Some(w)
    else
      match Run(w, ops[..|ops| - 1], mem)
      case None => None
      case Some(u) => if u.s.a.frames == [] || u.s.a.frameSize == 0 then None else Step(u, ops[|ops| - 1], mem(|ops| - 1))
  }

  ghost predicate AllSound(mem: nat -> Memory) {
    forall i :: Sound(mem(i))
  }

  /** After any run all objects are inside their frames, aligned, and share no byte. */
  lemma {:induction false} RunKeeps(w: World, ops: seq<Op>, mem: nat -> Memory)
    requires Valid(w.s) && !w.s.freed && AllSound(mem) && Run(w, ops, mem).Some?
    ensures Valid(Run(w, ops, mem).value.s) && !Run(w, ops, mem).value.s.freed
    decreases |ops|
  {
    if ops == [] {
    } else {
      var n := |ops| - 1;
      RunKeeps(w, ops[..n], mem);
      assert Sound(mem(n));
      StepKeeps(Run(w, ops[..n], mem).value, ops[n], mem(n));
    }
  }

  /** The run never has less than `depth` scopes open. */
  ghost predicate StaysAt(w: World, ops: seq<Op>, mem: nat -> Memory, depth: nat) {
    forall n :: 0 <= n <= |ops| && Run(w, ops[..n], mem).Some? ==> |Run(w, ops[..n], mem).value.s.scopes| >= depth
  }

  /** The run never leaves the scopes that there were when it began, nor the one it began in. */
  ghost predicate StaysInside(w: World, ops: seq<Op>, mem: nat -> Memory) {
    StaysAt(w, ops, mem, |w.s.scopes|)
  }

  /** No operation of the run names the object. */
  predicate Unnamed(ops: seq<Op>, h: nat) {
    forall i :: 0 <= i < |ops| ==> !Names(ops[i], h)
  }

  lemma StaysAtPrefix(w: World, ops: seq<Op>, mem: nat -> Memory, depth: nat, k: nat)
    requires StaysAt(w, ops, mem, depth) && k <= |ops|
    ensures StaysAt(w, ops[..k], mem, depth)
    ensures Run(w, ops[..k], mem).Some? ==> |Run(w, ops[..k], mem).value.s.scopes| >= depth
  {
    forall n | 0 <= n <= k && Run(w, ops[..k][..n], mem).Some?
      ensures |Run(w, ops[..k][..n], mem).value.s.scopes| >= depth
    {
      assert ops[..k][..n] == ops[..n];
    }
  }

  /**
   An object that no operation of a run names, and whose scope the run does not
   leave, is where it was in the beginning and holds the same bytes.
   */
  lemma {:induction false} RunKeepsObjects(w: World, ops: seq<Op>, mem: nat -> Memory, h: nat)
    requires Valid(w.s) && !w.s.freed && AllSound(mem) && Run(w, ops, mem).Some?
    requires h in w.s.objects && Unnamed(ops, h) && StaysAt(w, ops, mem, w.s.objects[h].scope + 1)
    ensures Kept(w.s, Run(w, ops, mem).value.s, h)
    decreases |ops|
  {
    if ops == [] {
    } else {
      var n := |ops| - 1;
      var u := Run(w, ops[..n], mem).value;
      StaysAtPrefix(w, ops, mem, w.s.objects[h].scope + 1, n);
      StaysAtPrefix(w, ops, mem, w.s.objects[h].scope + 1, n + 1);
      assert ops[..n + 1] == ops;
      RunKeepsObjects(w, ops[..n], mem, h);
      RunKeeps(w, ops[..n], mem);
      assert Sound(mem(n)) && !Names(ops[n], h);
      StepKeepsObjects(u, ops[n], mem(n), h);
    }
  }

  lemma {:induction false} RunStaysWithin(e: System, w: World, ops: seq<Op>, mem: nat -> Memory, k: nat)
    requires Valid(e) && !e.freed && w.s == Enter(e) && AllSound(mem) && StaysInside(w, ops, mem)
    requires k <= |ops| && Run(w, ops[..k], mem).Some?
    ensures Within(e, Run(w, ops[..k], mem).value.s)
  {
    EnterKeeps(e);
    EnterIsWithin(e);
    if k == 0 {
    } else {
      assert ops[..k][..k - 1] == ops[..k - 1];
      var u, t := Run(w, ops[..k - 1], mem).value, Run(w, ops[..k], mem).value;
      RunStaysWithin(e, w, ops, mem, k - 1);
      RunKeeps(w, ops[..k - 1], mem);
      assert Sound(mem(k - 1));
      assert |t.s.scopes| >= |w.s.scopes|;
      StepStaysWithin(e, u, ops[k - 1], mem(k - 1));
    }
  }

  function Entered(e: World): (w: World)
    requires e.s.a.frames != []
    ensures w.s.scopes != []
  {
    e.(s := Enter(e.s))
  }

  /** A run inside a scope that is entered first, after which that scope is the innermost again. */
  ghost predicate ScopeUse(e: World, ops: seq<Op>, mem: nat -> Memory) {
    && e.s.a.frames != [] && StaysInside(Entered(e), ops, mem) && Run(Entered(e), ops, mem).Some?
    && |Run(Entered(e), ops, mem).value.s.scopes| == |e.s.scopes| + 1
  }

  /** The world after entering the scope, the run, and leaving the scope. */
  ghost function AfterScope(e: World, ops: seq<Op>, mem: nat -> Memory): World
    requires ScopeUse(e, ops, mem)
  {
    LeaveWorld(Run(Entered(e), ops, mem).value)
  }

  /**
   A scope that is entered, used in any way, with any scopes nested in it, and left:
   the frames, how far they are filled and the current statistics are as before, and
   exactly the objects of before are left, where they were and with the bytes they
   had, unless the run stored into them itself.
   */
  lemma ScopeRestores(e: World, ops: seq<Op>, mem: nat -> Memory)
    requires Valid(e.s) && !e.s.freed && AllSound(mem) && ScopeUse(e, ops, mem)
    ensures var t := AfterScope(e, ops, mem).s;
            && Valid(t) && SameArena(e.s, t) && t.objects == e.s.objects && t.scopes == e.s.scopes
            && forall h :: h in e.s.objects && Unnamed(ops, h) ==> Kept(e.s, t, h)
  {
    assert ops[..|ops|] == ops;
    EnterKeeps(e.s);
    RunKeeps(Entered(e), ops, mem);
    RunStaysWithin(e.s, Entered(e), ops, mem, |ops|);
    var s := Run(Entered(e), ops, mem).value.s;
    LeaveKeeps(s);
    LeaveRestores(e.s, s);
    forall h | h in e.s.objects && Unnamed(ops, h) ensures Kept(e.s, Leave(s), h) {
      ScopeKeepsObject(e, ops, mem, h);
    }
  }

  lemma ScopeKeepsObject(e: World, ops: seq<Op>, mem: nat -> Memory, h: nat)
    requires Valid(e.s) && !e.s.freed && AllSound(mem) && ScopeUse(e, ops, mem)
    requires h in e.s.objects && Unnamed(ops, h)
    ensures Kept(e.s, AfterScope(e, ops, mem).s, h)
  {
    EnterKeeps(e.s);
    assert e.s.objects[h].scope < |e.s.scopes|;
    RunKeepsObjects(Entered(e), ops, mem, h);
    RunKeeps(Entered(e), ops, mem);
    LeaveKeeps(Run(Entered(e), ops, mem).value.s);
  }

  // ----- the beginning -----

  /** A new arena with its first frame. */
  function NewArena(frameSize: nat, poison: nat, mem: Memory): Option<Arena> {
    var none := Stat(0, 0, 0);
    FrameAlloc(Arena([], frameSize, poison, 1, none, none, none), frameSize, mem)
  }

  lemma NewArenaValid(frameSize: nat, poison: nat, mem: Memory)
    requires (poison == 0 || poison == 8) && frameSize % 8 == 0 && HEADER + poison <= frameSize <= SIZE_MAX && Sound(mem)
    ensures NewArena(frameSize, poison, mem).Some?
    ensures Valid(System(NewArena(frameSize, poison, mem).value, [], map[], false))
  {
    var none := Stat(0, 0, 0);
    NewFrameFits(Arena([], frameSize, poison, 1, none, none, none), 0, frameSize, mem);
  }
}
