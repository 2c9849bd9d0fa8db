/** The order of cleanups, the release of frames and arena, and what a reallocation from outside a scope does. */
module ArenaRelease {
  import opened Wrappers
  import opened Arithmetic
  import opened Arena
  import opened ArenaScopes
  import opened ArenaRuns

  // ----- cleanups -----

  /** The cleanups not run yet, in the order in which leaving all scopes runs them. */
  function Pending(scopes: seq<Scope>): seq<nat> {
    if scopes == [] then [] else scopes[|scopes| - 1].cleanups + Pending(scopes[..|scopes| - 1])
  }

  predicate Decreasing(s: seq<nat>) {
    forall i, j :: 0 <= i < j < |s| ==> s[i] > s[j]
  }

  /** How often a cleanup is in a list. */
  function Times(s: seq<nat>, c: nat): nat {
    multiset(s)[c]
  }

  lemma TimesConcat(a: seq<nat>, b: seq<nat>)
    ensures forall c: nat :: Times(a + b, c) == Times(a, c) + Times(b, c)
  {
    assert multiset(a + b) == multiset(a) + multiset(b);
  }

  /** Each cleanup registered so far was run once, or is pending once; the pending ones are in reverse order. */
  ghost predicate Accounted(w: World) {
    && (forall c: nat :: Times(w.ran, c) + Times(Pending(w.s.scopes), c) == if c < w.count then 1 else 0)
    && Decreasing(Pending(w.s.scopes))
  }

  lemma PendingBelow(w: World, c: nat)
    requires Accounted(w) && c in Pending(w.s.scopes)
    ensures c < w.count
  {
    assert Times(Pending(w.s.scopes), c) > 0;
  }

  lemma PendingRegistered(s: System, c: nat)
    requires s.scopes != []
    ensures Pending(Register(s, c).scopes) == [c] + Pending(s.scopes)
  {
    var n := |s.scopes| - 1;
    assert Register(s, c).scopes[..n] == s.scopes[..n];
    assert ([c] + s.scopes[n].cleanups) + Pending(s.scopes[..n]) == [c] + (s.scopes[n].cleanups + Pending(s.scopes[..n]));
  }

  lemma CleanupAccounted(w: World, t: System)
    requires Accounted(w) && t.scopes == w.s.scopes != []
    ensures Accounted(World(Register(t, w.count), w.ran, w.count + 1))
  {
    var pending := Pending(w.s.scopes);
    PendingRegistered(t, w.count);
    TimesConcat([w.count], pending);
    forall i | 0 <= i < |pending| ensures pending[i] < w.count {
      PendingBelow(w, pending[i]);
    }
  }

  lemma LeaveAccounted(w: World)
    requires Accounted(w) && w.s.scopes != []
    ensures Accounted(LeaveWorld(w))
  {
    var n := |w.s.scopes| - 1;
    var own, rest := w.s.scopes[n].cleanups, Pending(w.s.scopes[..n]);
    TimesConcat(w.ran, own);
    TimesConcat(own, rest);
    DecreasingRest(own, rest);
  }

  lemma DecreasingRest(own: seq<nat>, rest: seq<nat>)
    requires Decreasing(own + rest)
    ensures Decreasing(rest)
  {
    assert forall i :: 0 <= i < |rest| ==> rest[i] == (own + rest)[|own| + i];
  }

  lemma AllocAccounted(w: World, h: nat, size: nat, mem: Memory)
    requires Valid(w.s) && w.s.scopes != [] && h !in w.s.objects && Sound(mem) && Accounted(w)
    requires Alloc(w.s, h, size, mem).Some?
    ensures Alloc(w.s, h, size, mem).value.scopes == w.s.scopes && Accounted(w.(s := Alloc(w.s, h, size, mem).value))
  {
    AllocKeeps(w.s, h, size, mem);
  }

  lemma ReallocAccounted(w: World, h: nat, used: nat, size: nat, mem: Memory)
    requires Valid(w.s) && w.s.scopes != [] && h in w.s.objects && used <= w.s.objects[h].size && Sound(mem) && Accounted(w)
    requires w.s.objects[h].scope + 1 == |w.s.scopes| && Realloc(w.s, h, used, size, mem).Some?
    ensures Accounted(w.(s := Realloc(w.s, h, used, size, mem).value))
  {
    ReallocKeeps(w.s, h, used, size, mem);
  }

  lemma SameScopesAccounted(w: World, t: System)
    requires Accounted(w) && t.scopes == w.s.scopes
    ensures Accounted(w.(s := t))
  {}

  lemma PendingEntered(s: System)
    requires s.a.frames != []
    ensures Pending(Enter(s).scopes) == Pending(s.scopes)
  {
    assert Enter(s).scopes[..|s.scopes|] == s.scopes;
    assert [] + Pending(s.scopes) == Pending(s.scopes);
  }

  lemma EnterAccounted(w: World)
    requires Accounted(w) && w.s.a.frames != []
    ensures Accounted(w.(s := Enter(w.s)))
  {
    PendingEntered(w.s);
  }

  lemma StepAccounted(w: World, op: Op, mem: Memory)
    requires Valid(w.s) && !w.s.freed && Sound(mem) && Step(w, op, mem).Some? && Accounted(w)
    ensures Accounted(Step(w, op, mem).value)
  {
    hide Valid, Alloc, Realloc, Accounted, Kept, Pending;
    ValidArena(w.s);
    match op
    case OpMalloc(h, size) => AllocAccounted(w, h, size, mem);
    case OpRealloc(h, used, size) => ReallocAccounted(w, h, used, size, mem);
    case OpStore(h, i, bytes) => SameScopesAccounted(w, Store(w.s, h, i, bytes));
    case OpEnter => EnterAccounted(w);
    case OpLeave => LeaveAccounted(w);
    case OpCleanup(h) =>
      AllocAccounted(w, h, CLEANUP, mem);
      CleanupAccounted(w, Alloc(w.s, h, CLEANUP, mem).value);
  }

  /** In every run each cleanup runs at most once, and those of a scope that is not left are pending, the last one first. */
  lemma {:induction false} RunAccounted(w: World, ops: seq<Op>, mem: nat -> Memory)
    requires Valid(w.s) && !w.s.freed && AllSound(mem) && Accounted(w) && Run(w, ops, mem).Some?
    ensures Accounted(Run(w, ops, mem).value)
    decreases |ops|
  {
    if ops == [] {
    } else {
      var n := |ops| - 1;
      RunAccounted(w, ops[..n], mem);
      RunKeeps(w, ops[..n], mem);
      assert Sound(mem(n));
      StepAccounted(Run(w, ops[..n], mem).value, ops[n], mem(n));
    }
  }

  /**
   A scope that is entered, used in any way and left: leaving it has run, once each,
   exactly the cleanups registered since it was entered, and those that were pending
   before are pending still.
   */
  lemma ScopeRunsCleanups(e: World, ops: seq<Op>, mem: nat -> Memory)
    requires Valid(e.s) && !e.s.freed && AllSound(mem) && Accounted(e) && ScopeUse(e, ops, mem)
    ensures var t := AfterScope(e, ops, mem);
            && Pending(t.s.scopes) == Pending(e.s.scopes)
            && forall c: nat :: Times(t.ran, c) - Times(e.ran, c)
                             == (if c < t.count then 1 else 0) - (if c < e.count then 1 else 0)
  {
    EnterKeeps(e.s);
    PendingEntered(e.s);
    assert Accounted(Entered(e));
    RunAccounted(Entered(e), ops, mem);
    ScopeRestores(e, ops, mem);
    LeaveAccounted(Run(Entered(e), ops, mem).value);
  }

  // ----- release -----

  /** Leaving all scopes, one after the other. */
  function LeaveAll(w: World): World
    decreases |w.s.scopes|
  {
    if w.s.scopes == [] then w else LeaveAll(LeaveWorld(w))
  }

  function FreeWorld(w: World): World {
    w.(s := Free(w.s))
  }

  /** All frames and the arena itself are released. */
  predicate Released(s: System) {
    s.a.frames == [] && s.a.refs == 0 && s.objects == map[]
  }

  lemma FreeInScope(s: System)
    requires Valid(s) && !s.freed && s.scopes != []
    ensures Valid(Free(s)) && Free(s).freed && Free(s).scopes == s.scopes && Free(s).a.frames == s.a.frames
    ensures forall h :: h in s.objects ==> Kept(s, Free(s), h)
  {
    var t := Free(s);
    forall i | 0 <= i < |t.scopes| ensures ScopeOk(t.a, t.scopes[i]) {
      assert ScopeOk(s.a, s.scopes[i]);
    }
    forall h | h in t.objects ensures Inside(t.a, t.objects[h]) {
      assert Inside(s.a, s.objects[h]);
    }
    forall h, i | h in t.objects && t.objects[h].scope < i < |t.scopes| ensures Before(t.objects[h], t.scopes[i]) {
      assert Before(s.objects[h], s.scopes[i]);
    }
  }

  /** The last scope of a freed arena releases everything; before that all is kept. */
  lemma {:induction false} LeaveAllFreed(w: World)
    requires Valid(w.s) && w.s.freed && w.s.scopes != []
    ensures Released(LeaveAll(w).s)
    decreases |w.s.scopes|
  {
    if |w.s.scopes| == 1 {
      assert Leave(w.s).scopes == [];
      assert forall h :: h in w.s.objects ==> w.s.objects[h].scope == 0;
      assert Leave(w.s).objects == map[];
    } else {
      LeaveKeeps(w.s);
      LeaveAllFreed(LeaveWorld(w));
    }
  }

  lemma {:induction false} LeaveAllKeeps(w: World)
    requires Valid(w.s) && !w.s.freed
    ensures Valid(LeaveAll(w).s) && LeaveAll(w).s.scopes == [] && !LeaveAll(w).s.freed
    decreases |w.s.scopes|
  {
    if w.s.scopes == [] {
    } else {
      LeaveKeeps(w.s);
      LeaveAllKeeps(LeaveWorld(w));
    }
  }

  /** Leaving all scopes runs what is pending, in that order. */
  lemma {:induction false} LeaveAllRuns(w: World)
    ensures LeaveAll(w).ran == w.ran + Pending(w.s.scopes) && LeaveAll(w).count == w.count
    decreases |w.s.scopes|
  {
    if w.s.scopes == [] {
      assert w.ran + [] == w.ran;
    } else {
      var n := |w.s.scopes| - 1;
      LeaveAllRuns(LeaveWorld(w));
      assert (w.ran + w.s.scopes[n].cleanups) + Pending(w.s.scopes[..n])
          == w.ran + (w.s.scopes[n].cleanups + Pending(w.s.scopes[..n]));
    }
  }

  /** Everything is released, and each cleanup that was ever registered has run exactly once. */
  ghost predicate Finished(w: World) {
    Released(w.s) && forall c: nat :: Times(w.ran, c) == if c < w.count then 1 else 0
  }

  lemma RunsAll(w: World)
    requires Accounted(w)
    ensures forall c: nat :: Times(w.ran + Pending(w.s.scopes), c) == if c < w.count then 1 else 0
  {
    TimesConcat(w.ran, Pending(w.s.scopes));
  }

  /**
   Whether the arena is freed before or after its scopes are left, in the end
   everything is released and each cleanup has run exactly once.
   */
  lemma FreeBeforeOrAfter(w: World)
    requires Valid(w.s) && !w.s.freed && Accounted(w)
    ensures Finished(LeaveAll(FreeWorld(w))) && Finished(FreeWorld(LeaveAll(w)))
  {
    hide Valid, Accounted, Kept;
    if w.s.scopes != [] {
      FreeInScope(w.s);
      LeaveAllFreed(FreeWorld(w));
    }
    LeaveAllKeeps(w);
    RunsAll(w);
    LeaveAllRuns(w);
    LeaveAllRuns(FreeWorld(w));
  }

  /** So it is after every run of a new arena. */
  lemma EveryRunFinishes(frameSize: nat, poison: nat, first: Memory, ops: seq<Op>, mem: nat -> Memory)
    requires (poison == 0 || poison == 8) && frameSize % 8 == 0 && HEADER + poison <= frameSize <= SIZE_MAX
    requires Sound(first) && AllSound(mem)
    ensures var a := NewArena(frameSize, poison, first);
            && a.Some?
            && var w := Run(World(System(a.value, [], map[], false), [], 0), ops, mem);
               w.Some? ==> Finished(LeaveAll(FreeWorld(w.value))) && Finished(FreeWorld(LeaveAll(w.value)))
  {
    NewArenaValid(frameSize, poison, first);
    var w := World(System(NewArena(frameSize, poison, first).value, [], map[], false), [], 0);
    if Run(w, ops, mem).Some? {
      RunKeeps(w, ops, mem);
      assert Accounted(w);
      RunAccounted(w, ops, mem);
      FreeBeforeOrAfter(Run(w, ops, mem).value);
    }
  }

  // ----- the innermost scope -----

  /** Scopes are numbered as arena_scope_validate expects. */
  predicate Numbered(s: System) {
    forall i :: 0 <= i < |s.scopes| ==> s.scopes[i].id == i + 2
  }

  /**
   The check of arena_malloc lets exactly the innermost scope allocate while the
   arena is not freed. Once it is, the check takes the scope around the innermost
   one for the innermost, and no scope may allocate if there is just one.
   */
  lemma OnlyInnermostAllocates(s: System, i: nat)
    requires Valid(s) && Numbered(s) && i < |s.scopes|
    ensures s.scopes[i].id == s.a.refs <==> i == |s.scopes| - (if s.freed then 2 else 1)
  {}

  lemma StepNumbered(w: World, op: Op, mem: Memory)
    requires Valid(w.s) && !w.s.freed && Sound(mem) && Step(w, op, mem).Some? && Numbered(w.s)
    ensures Numbered(Step(w, op, mem).value.s)
  {
    hide Valid, Alloc, Realloc, Kept;
    ValidArena(w.s);
    match op
    case OpMalloc(h, size) => AllocKeeps(w.s, h, size, mem);
    case OpRealloc(h, used, size) => ReallocKeeps(w.s, h, used, size, mem);
    case OpStore(_, _, _) =>
    case OpEnter =>
    case OpLeave =>
    case OpCleanup(h) => AllocKeeps(w.s, h, CLEANUP, mem);
  }

  /** In every run the check goes by the right numbers, also after the arena is freed and while scopes are left. */
  lemma {:induction false} RunNumbered(w: World, ops: seq<Op>, mem: nat -> Memory)
    requires Valid(w.s) && !w.s.freed && AllSound(mem) && Numbered(w.s) && Run(w, ops, mem).Some?
    ensures var s := Run(w, ops, mem).value.s; Numbered(s) && Numbered(Free(s)) && (s.scopes != [] ==> Numbered(Leave(Free(s))))
    decreases |ops|
  {
    if ops == [] {
    } else {
      var n := |ops| - 1;
      RunNumbered(w, ops[..n], mem);
      RunKeeps(w, ops[..n], mem);
      assert Sound(mem(n));
      StepNumbered(Run(w, ops[..n], mem).value, ops[n], mem(n));
    }
  }

  // ----- growing an object of an outer scope -----

  /** The object can be grown where it is; this is not checked against the scope. */
  predicate GrowsInPlace(s: System, h: nat, old_: nat, new_: nat)
    requires s.a.frames != []
  {
    && h in s.objects && old_ <= s.objects[h].size && old_ < new_
    && ReallocFast(s.a, Place(s.objects[h].frame, s.objects[h].off), old_, new_).Some?
  }

  lemma GrowsFits(s: System, h: nat, old_: nat, new_: nat)
    requires s.a.frames != [] && GrowsInPlace(s, h, old_, new_)
    ensures h in s.objects && old_ <= s.objects[h].size && old_ < new_ && s.objects[h].frame + 1 == |s.a.frames|
    ensures s.objects[h].off + new_ <= Top(s.a).size && Align(s.a.poison, s.objects[h].off + old_) == Top(s.a).len
    ensures ReallocFast(s.a, Place(s.objects[h].frame, s.objects[h].off), old_, new_) == Some(Push(s.a, s.objects[h].off, new_))
  {
    hide Align;
  }

  /** An outer object that can grow in place ends the last frame, and the inner scope was entered right behind it. */
  lemma OuterIsLast(s: System, h: nat, old_: nat, new_: nat)
    requires Valid(s) && GrowsInPlace(s, h, old_, new_) && s.objects[h].scope + 1 < |s.scopes|
    ensures var sc := s.scopes[|s.scopes| - 1];
            && s.objects[h].frame + 1 == sc.frames == |s.a.frames|
            && sc.len == Top(s.a).len == Align(s.a.poison, s.objects[h].off + old_)
  {
    hide Align, ArenaOk, FrameOk, Apart, Push;
    var o, sc := s.objects[h], s.scopes[|s.scopes| - 1];
    ValidArena(s);
    assert Inside(s.a, o) && ScopeOk(s.a, sc) && Before(o, sc);
    AlignMonotone(s.a.poison, o.off + old_, o.off + o.size, Top(s.a).size);
  }

  /** The system after an outer object was grown in place and the inner scope was left. */
  function GrownAndLeft(s: System, h: nat, old_: nat, new_: nat, mem: Memory): System
    requires s.a.frames != [] && s.a.frameSize > 0 && s.scopes != [] && GrowsInPlace(s, h, old_, new_)
  {
    Leave(Realloc(s, h, old_, new_, mem).value)
  }

  /** The object after it was grown in place. */
  function Regrown(a: Arena, o: Object, new_: nat): Object
    requires a.frames != []
  {
    o.(size := new_, end := Min(Align(a.poison, o.off + new_), Top(a).size))
  }

  /** Where the frame is filled only up to the aligned old end, the grown object is inside if it ends there too. */
  lemma RegrownInside(a: Arena, b: Arena, o: Object, old_: nat, new_: nat)
    requires ArenaOk(a) && Inside(a, o) && o.frame + 1 == |a.frames| && old_ < new_
    requires Top(a).len == Align(a.poison, o.off + old_) && o.off + new_ <= Top(a).size
    requires a.frames == b.frames && a.poison == b.poison
    ensures Inside(b, Regrown(a, o, new_)) <==> Regrown(a, o, new_).end == Align(a.poison, o.off + old_)
  {
    AlignMonotone(a.poison, o.off + old_, o.off + new_, Top(a).size);
  }

  /** The frame that is pushed on again is cut back to what it was. */
  lemma CutBack(a: Arena, from: nat, new_: nat)
    requires ArenaOk(a) && a.frames != [] && Top(a).len <= Min(Align(a.poison, from + new_), Top(a).size)
    ensures Cut(Push(a, from, new_).frames, Top(a).len) == a.frames
  {}

  lemma PushedAgain(a: Arena, o: Object, old_: nat, new_: nat)
    requires ArenaOk(a) && a.frames != [] && old_ < new_ && Top(a).len == Align(a.poison, o.off + old_) && FrameOk(Top(a))
    ensures var b := Push(a, o.off, new_);
            && b.frames != [] && b.poison == a.poison && b.frameSize == a.frameSize && b.refs == a.refs
            && |b.frames| == |a.frames| && Cut(b.frames, Top(a).len) == a.frames
            && Regrown(a, o, new_) == o.(size := new_, end := Top(b).len)
  {
    AlignMonotone(a.poison, o.off + old_, o.off + new_, Top(a).size);
    CutBack(a, o.off, new_);
  }

  /** Leaving a scope that was entered in the last frame. */
  lemma LeaveLast(t: System, h: nat)
    requires t.scopes != [] && t.a.refs > 1 && h in t.objects && t.objects[h].scope + 1 < |t.scopes|
    requires t.scopes[|t.scopes| - 1].frames == |t.a.frames|
    ensures var n := |t.scopes| - 1;
            && Leave(t).a.frames == Cut(t.a.frames, t.scopes[n].len) && Leave(t).scopes == t.scopes[..n]
            && Leave(t).a.poison == t.a.poison && Leave(t).a.frameSize == t.a.frameSize
            && h in Leave(t).objects && Leave(t).objects[h] == t.objects[h]
  {
    hide Cut;
    assert t.a.frames[..|t.a.frames|] == t.a.frames;
  }

  lemma RegrownIs(s: System, h: nat, old_: nat, new_: nat, mem: Memory)
    requires s.a.frames != [] && s.a.frameSize > 0 && s.scopes != [] && h in s.objects && old_ <= s.objects[h].size && old_ < new_
    requires ReallocFast(s.a, Place(s.objects[h].frame, s.objects[h].off), old_, new_) == Some(Push(s.a, s.objects[h].off, new_))
    requires var b := Push(s.a, s.objects[h].off, new_);
             b.frames != [] && Regrown(s.a, s.objects[h], new_) == s.objects[h].(size := new_, end := Top(b).len)
    ensures Realloc(s, h, old_, new_, mem) ==
            Some(s.(a := Push(s.a, s.objects[h].off, new_), objects := s.objects[h := Regrown(s.a, s.objects[h], new_)]))
  {
    hide ReallocFast, Push, Regrown, Alloc;
  }

  lemma OuterGrown(s: System, h: nat, old_: nat, new_: nat, mem: Memory)
    requires Valid(s) && !s.freed && GrowsInPlace(s, h, old_, new_) && s.objects[h].scope + 1 < |s.scopes|
    ensures var u := GrownAndLeft(s, h, old_, new_, mem);
            && u.a.frames == s.a.frames && u.a.poison == s.a.poison && u.a.frameSize == s.a.frameSize
            && u.scopes == s.scopes[..|s.scopes| - 1]
            && h in u.objects && u.objects[h] == Regrown(s.a, s.objects[h], new_)
  {
    hide Valid, Align, ArenaOk, FrameOk, Push, GrowsInPlace, Cut, ReallocFast, Leave, Realloc, Top;
    ValidArena(s);
    GrowsFits(s, h, old_, new_);
    OuterIsLast(s, h, old_, new_);
    PushedAgain(s.a, s.objects[h], old_, new_);
    RegrownIs(s, h, old_, new_, mem);
    LeaveLast(Realloc(s, h, old_, new_, mem).value, h);
  }

  /**
   arena_realloc does not check the scope where it grows an object in place. If the
   object belongs to an outer scope, leaving the inner one undoes the growth: the
   object still lies inside what its frame has given away if and only if its new end
   is aligned to where its old end was.
   */
  lemma OuterReallocIsCutOff(s: System, h: nat, old_: nat, new_: nat, mem: Memory)
    requires Valid(s) && !s.freed && GrowsInPlace(s, h, old_, new_) && s.objects[h].scope + 1 < |s.scopes|
    ensures var o, u := s.objects[h], GrownAndLeft(s, h, old_, new_, mem);
            && h in u.objects && u.objects[h].off == o.off && u.objects[h].size == new_
            && (Inside(u.a, u.objects[h]) <==>
                  Regrown(s.a, o, new_).end == Align(s.a.poison, o.off + old_))
  {
    hide Valid, Inside, Align, ArenaOk, Realloc, Leave, ReallocFast, GrownAndLeft, GrowsInPlace;
    ValidArena(s);
    GrowsFits(s, h, old_, new_);
    ValidObject(s, h);
    OuterIsLast(s, h, old_, new_);
    OuterGrown(s, h, old_, new_, mem);
    RegrownInside(s.a, GrownAndLeft(s, h, old_, new_, mem).a, s.objects[h], old_, new_);
  }

  /** The two objects have a byte in common. */
  predicate Overlap(o: Object, p: Object) {
    o.frame == p.frame && p.off < o.off + o.size && o.off < p.off + p.size
  }

  /**
   Then the next allocation from the same frame takes bytes of the object, exactly if
   the new end is behind the aligned old end.
   */
  lemma NextAllocationOverlaps(s: System, h: nat, old_: nat, new_: nat, mem: Memory, g: nat, size: nat, mem2: Memory)
    requires Valid(s) && !s.freed && GrowsInPlace(s, h, old_, new_) && s.objects[h].scope + 1 < |s.scopes|
    requires g !in s.objects && size > 0 && Fits(Top(s.a), size)
    ensures var o, u := s.objects[h], GrownAndLeft(s, h, old_, new_, mem);
            && u.a.frames != [] && u.a.frameSize > 0 && u.scopes != []
            && var v := Alloc(u, g, size, mem2);
               && v.Some? && h in v.value.objects && g in v.value.objects && v.value.objects[h].size == new_
               && (Overlap(v.value.objects[h], v.value.objects[g]) <==> o.off + new_ > Align(s.a.poison, o.off + old_))
  {
    OuterIsLast(s, h, old_, new_);
    OuterGrown(s, h, old_, new_, mem);
    var u := GrownAndLeft(s, h, old_, new_, mem);
    AllocIs(u, g, size, mem2);
  }

  /** An object of eight bytes that an outer scope allocated, inside a second scope. */
  function TwoScopes(data: seq<Byte>): System {
    var a := Arena([Frame(128, 40, data)], 128, 0, 3, Stat(8, 8, 8), Stat(1, 1, 1), Stat(2, 2, 2));
    System(a, [Scope(1, 32, 0, 1, 0, 2, []), Scope(1, 40, 8, 1, 1, 3, [])], map[0 := Object(0, 0, 32, 8, 40)], false)
  }

  lemma TwoScopesGrow(data: seq<Byte>)
    requires |data| == 128
    ensures var s := TwoScopes(data);
            && Valid(s) && Numbered(s) && GrowsInPlace(s, 0, 8, 16) && Fits(Top(s.a), 8) && Align(s.a.poison, 40) == 40
  {
    var s := TwoScopes(data);
    assert Align(0, 40) == 40;
    assert Inside(s.a, s.objects[0]);
  }

  /** Such an arena exists: growing the object to sixteen bytes puts eight of them into the next object. */
  lemma CutOffHappens(data: seq<Byte>, mem: Memory)
    requires |data| == 128
    ensures var s := TwoScopes(data);
            && Valid(s) && Numbered(s) && GrowsInPlace(s, 0, 8, 16)
            && var u := Alloc(GrownAndLeft(s, 0, 8, 16, mem), 1, 8, mem);
               u.Some? && 0 in u.value.objects && 1 in u.value.objects && Overlap(u.value.objects[0], u.value.objects[1])
  {
    hide Valid, GrowsInPlace, Alloc, GrownAndLeft, Numbered;
    TwoScopesGrow(data);
    NextAllocationOverlaps(TwoScopes(data), 0, 8, 16, mem, 1, 8, mem);
  }
}
