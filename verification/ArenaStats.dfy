/** The statistics of the arena: what they count in every run, and that the maxima are high-water marks. */
module ArenaStats {
  import opened Wrappers
  import opened Arithmetic
  import opened Arena
  import opened ArenaScopes
  import opened ArenaRuns

  /** The statistic after an operation that saw no higher value than the one it ended with. */
  predicate Peaked(st: Stat, st2: Stat) {
    st2.max == Max(st.max, st2.now) && st2.total >= st.total
  }

  predicate AllPeaked(a: Arena, b: Arena) {
    Peaked(a.bytes, b.bytes) && Peaked(a.frameStat, b.frameStat) && Peaked(a.scopeStat, b.scopeStat)
  }

  /** What a scope is to restore was seen before. */
  predicate Seen(a: Arena, sc: Scope) {
    sc.bytesNow <= a.bytes.max && sc.framesNow <= a.frameStat.max && sc.scopesNow <= a.scopeStat.max
  }

  /** Frames and scopes are counted, and each scope remembers their numbers. */
  ghost predicate Counted(s: System) {
    && s.a.frameStat.now == |s.a.frames| && s.a.scopeStat.now == |s.scopes|
    && s.a.bytes.now <= s.a.bytes.max && s.a.frameStat.now <= s.a.frameStat.max && s.a.scopeStat.now <= s.a.scopeStat.max
    && forall i :: 0 <= i < |s.scopes| ==>
         s.scopes[i].framesNow == s.scopes[i].frames && s.scopes[i].scopesNow == i && Seen(s.a, s.scopes[i])
  }

  /** Nothing is given back: frames may have been added, and statistics have grown with them. */
  predicate Raised(a: Arena, b: Arena) {
    && AllPeaked(a, b) && b.bytes.now >= a.bytes.now && b.scopeStat == a.scopeStat
    && b.frameStat.now - a.frameStat.now == |b.frames| - |a.frames|
  }

  lemma RaisedCounted(s: System, t: System)
    requires Counted(s) && Raised(s.a, t.a) && |t.scopes| == |s.scopes|
    requires forall i :: 0 <= i < |s.scopes| ==> t.scopes[i].(cleanups := []) == s.scopes[i].(cleanups := [])
    ensures Counted(t)
  {
    forall i | 0 <= i < |t.scopes|
      ensures t.scopes[i].framesNow == t.scopes[i].frames && t.scopes[i].scopesNow == i && Seen(t.a, t.scopes[i])
    {
      assert t.scopes[i].(cleanups := []) == s.scopes[i].(cleanups := []);
      assert Seen(s.a, s.scopes[i]);
    }
  }

  lemma MallocRaised(a: Arena, size: nat, mem: Memory)
    requires ArenaOk(a) && a.frames != [] && Sound(mem) && Malloc(a, size, mem).Some?
    requires a.bytes.now <= a.bytes.max && a.frameStat.now <= a.frameStat.max && a.scopeStat.now <= a.scopeStat.max
    ensures Raised(a, Malloc(a, size, mem).value.0)
  {
    hide Align;
  }

  lemma AllocRaised(s: System, h: nat, size: nat, mem: Memory)
    requires Valid(s) && s.scopes != [] && Sound(mem) && Counted(s) && Alloc(s, h, size, mem).Some?
    ensures Raised(s.a, Alloc(s, h, size, mem).value.a) && Alloc(s, h, size, mem).value.scopes == s.scopes
  {
    hide Malloc;
    MallocRaised(s.a, size, mem);
  }

  lemma StoreRaised(a: Arena, t: System, h: nat, i: nat, bytes: seq<Byte>)
    requires h in t.objects && Raised(a, t.a)
    ensures Raised(a, Store(t, h, i, bytes).a)
  {}

  lemma FastRaised(a: Arena, p: Place, old_: nat, new_: nat)
    requires a.frames != [] && ReallocFast(a, p, old_, new_).Some?
    requires a.bytes.now <= a.bytes.max && a.frameStat.now <= a.frameStat.max && a.scopeStat.now <= a.scopeStat.max
    ensures Raised(a, ReallocFast(a, p, old_, new_).value)
  {
    hide Align;
  }

  lemma ReallocRaised(s: System, h: nat, old_: nat, new_: nat, mem: Memory)
    requires Valid(s) && s.scopes != [] && h in s.objects && old_ <= s.objects[h].size && Sound(mem) && Counted(s)
    requires Realloc(s, h, old_, new_, mem).Some?
    ensures Raised(s.a, Realloc(s, h, old_, new_, mem).value.a)
  {
    hide Valid, Content, Alloc, Store, ReallocFast, Raised, Sound;
    ValidArena(s);
    var o := s.objects[h];
    if ReallocFast(s.a, Place(o.frame, o.off), old_, new_).Some? {
      FastRaised(s.a, Place(o.frame, o.off), old_, new_);
    } else {
      ForgetKeeps(s, h);
      assert Counted(Forget(s, h));
      AllocRaised(Forget(s, h), h, new_, mem);
      AllocHas(Forget(s, h), h, new_, mem);
      var t := Alloc(Forget(s, h), h, new_, mem).value;
      StoreRaised(s.a, t, h, 0, Content(s, h)[..Min(old_, |Content(s, h)|)]);
    }
  }

  lemma EnterCounted(s: System)
    requires Valid(s) && Counted(s)
    ensures Counted(Enter(s)) && AllPeaked(s.a, Enter(s).a)
  {}

  lemma LeaveCounted(s: System)
    requires Valid(s) && s.scopes != [] && s.a.refs > 1 && Counted(s)
    ensures Counted(Leave(s)) && AllPeaked(s.a, Leave(s).a)
  {
    LeaveFrames(s);
    assert Seen(s.a, s.scopes[|s.scopes| - 1]);
    forall i | 0 <= i < |s.scopes| - 1 ensures Seen(Leave(s).a, s.scopes[i]) {
      assert Seen(s.a, s.scopes[i]);
    }
  }

  /** Every operation keeps the counts, and raises each maximum just as far as it must. */
  lemma StepCounted(w: World, op: Op, mem: Memory)
    requires Valid(w.s) && !w.s.freed && Sound(mem) && Step(w, op, mem).Some? && Counted(w.s)
    ensures Counted(Step(w, op, mem).value.s) && AllPeaked(w.s.a, Step(w, op, mem).value.s.a)
  {
    hide Valid, Alloc, Realloc, Kept, Counted, Seen, AllPeaked;
    ValidArena(w.s);
    RaisedPeaks(w.s.a, Step(w, op, mem).value.s.a);
    match op
    case OpMalloc(h, size) =>
      AllocRaised(w.s, h, size, mem);
      RaisedCounted(w.s, Alloc(w.s, h, size, mem).value);
    case OpRealloc(h, used, size) =>
      ReallocRaised(w.s, h, used, size, mem);
      ReallocKeeps(w.s, h, used, size, mem);
      RaisedCounted(w.s, Realloc(w.s, h, used, size, mem).value);
    case OpStore(h, i, bytes) =>
      SelfRaised(w.s);
      StoreRaised(w.s.a, w.s, h, i, bytes);
      RaisedCounted(w.s, Store(w.s, h, i, bytes));
    case OpEnter => EnterCounted(w.s);
    case OpLeave => LeaveCounted(w.s);
    case OpCleanup(h) =>
      AllocRaised(w.s, h, CLEANUP, mem);
      RaisedCounted(w.s, Register(Alloc(w.s, h, CLEANUP, mem).value, w.count));
  }

  lemma RaisedPeaks(a: Arena, b: Arena)
    ensures Raised(a, b) ==> AllPeaked(a, b)
  {}

  lemma SelfRaised(s: System)
    requires Counted(s)
    ensures Raised(s.a, s.a)
  {}

  // ----- runs -----

  datatype Which = Bytes | Frames | Scopes

  function StatOf(a: Arena, which: Which): Stat {
    match which
    case Bytes => a.bytes
    case Frames => a.frameStat
    case Scopes => a.scopeStat
  }

  /** The highest value of a statistic at any time of the run. */
  function Highest(w: World, ops: seq<Op>, mem: nat -> Memory, which: Which): nat
    decreases |ops|
  {
    if ops == [] then StatOf(w.s.a, which).max
    else
      var before := Highest(w, ops[..|ops| - 1], mem, which);
      match Run(w, ops, mem)
      case None => before
      case Some(u) => Max(before, StatOf(u.s.a, which).now)
  }

  /**
   After any run the statistics count the frames and the scopes that there are, and the
   maxima are the highest values at any time of the run.
   */
  lemma {:induction false} RunCounted(w: World, ops: seq<Op>, mem: nat -> Memory, which: Which)
    requires Valid(w.s) && !w.s.freed && AllSound(mem) && Counted(w.s) && Run(w, ops, mem).Some?
    ensures var s := Run(w, ops, mem).value.s;
            && s.a.frameStat.now == |s.a.frames| && s.a.scopeStat.now == |s.scopes| && Counted(s)
            && StatOf(s.a, which).max == Highest(w, ops, mem, which)
    decreases |ops|
  {
    if ops == [] {
    } else {
      var n := |ops| - 1;
      RunCounted(w, ops[..n], mem, which);
      RunKeeps(w, ops[..n], mem);
      assert Sound(mem(n));
      hide Valid, Counted, Step;
      StepCounted(Run(w, ops[..n], mem).value, ops[n], mem(n));
      CountedNow(Run(w, ops, mem).value.s);
    }
  }

  lemma CountedNow(s: System)
    requires Counted(s)
    ensures s.a.frameStat.now == |s.a.frames| && s.a.scopeStat.now == |s.scopes|
  {}

  lemma NewArenaCounted(frameSize: nat, poison: nat, mem: Memory)
    requires (poison == 0 || poison == 8) && frameSize % 8 == 0 && HEADER + poison <= frameSize <= SIZE_MAX && Sound(mem)
    ensures NewArena(frameSize, poison, mem).Some?
    ensures Counted(System(NewArena(frameSize, poison, mem).value, [], map[], false))
  {
    NewArenaValid(frameSize, poison, mem);
  }
}
