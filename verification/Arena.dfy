/**
 libks/arena.c as functions on values: frames with their bytes, scopes, and the
 objects the caller holds. The objects are not part of the C state; they say what
 the caller may rely on. Allocation by malloc is assumed to succeed.
 */
module Arena {
  import opened Wrappers
  import opened Arithmetic

  type Byte = bv8

  /** A frame starts with its own record. */
  const HEADER: nat := 32

  datatype Frame = Frame(size: nat, len: nat, data: seq<Byte>)

  datatype Stat = Stat(now: nat, max: nat, total: nat)

  /** The last frame is the one allocated from. */
  datatype Arena = Arena(
    frames: seq<Frame>, frameSize: nat, poison: nat, refs: int, bytes: Stat, frameStat: Stat, scopeStat: Stat)

  function Add(st: Stat, n: nat): Stat {
    Stat(st.now + n, if st.now + n > st.max then st.now + n else st.max, st.total + n)
  }

  // ----- allocation -----

  function Up8(n: nat): nat {
    n + (8 - n % 8) % 8
  }

  /** An address rounded up to eight, with at least as many bytes of poison in between. */
  function Align(poison: nat, n: nat): (r: nat)
    ensures r >= n
  {
    if Up8(n) + poison <= SIZE_MAX then Up8(n) + poison else Up8(n)
  }

  function Min(a: nat, b: nat): nat {
    if a < b then a else b
  }

  predicate Fits(f: Frame, size: nat) {
    f.len + size <= SIZE_MAX && f.len + size <= f.size
  }

  /** The frame after `size` bytes were taken from it. */
  function Taken(poison: nat, f: Frame, size: nat): Frame {
    f.(len := Min(Align(poison, f.len + size), f.size))
  }

  /** What the statistics count: the bytes and the alignment after them, also where it is cut off. */
  function Spent(poison: nat, f: Frame, size: nat): nat {
    Align(poison, f.len + size) - f.len
  }

  function Top(a: Arena): Frame
    requires a.frames != []
  {
    a.frames[|a.frames| - 1]
  }

  function SetTop(a: Arena, f: Frame): Arena
    requires a.frames != []
  {
    a.(frames := a.frames[|a.frames| - 1 := f])
  }

  /** Takes bytes from the last frame, with its length first set to `from`. */
  function Push(a: Arena, from: nat, size: nat): Arena
    requires a.frames != []
  {
    var f := Top(a).(len := from);
    SetTop(a, Taken(a.poison, f, size)).(bytes := Add(a.bytes, Spent(a.poison, f, size)))
  }

  /** Fresh memory of a size, with any contents. */
  type Memory = nat -> seq<Byte>

  ghost predicate Sound(mem: Memory) {
    forall n :: |mem(n)| == n
  }

  function FrameAlloc(a: Arena, size: nat, mem: Memory): Option<Arena> {
    var f := Frame(size, 0, mem(size));
    if !Fits(f, HEADER) then None
    else Some(a.(frames := a.frames + [Taken(a.poison, f, HEADER)],
                 bytes := Add(a.bytes, Spent(a.poison, f, HEADER)),
                 frameStat := Add(a.frameStat, 1)))
  }

  /** The first of size, 2 * size, 4 * size, ... that is not less than total, if it can be represented. */
  function Doubled(size: nat, total: nat): (r: Option<nat>)
    requires size > 0
    ensures r.Some? ==> r.value >= total && r.value >= size && r.value <= Max(size, SIZE_MAX)
    decreases total - size
  {
    if size >= total then Some(size)
    else if 2 * size > SIZE_MAX then None
    else Doubled(2 * size, total)
  }

  /** The size, doubled k times, is enough and can be represented. */
  predicate Reaches(size: nat, total: nat, k: nat) {
    total <= size * Pow2(k) <= SIZE_MAX
  }

  ghost predicate NeverReaches(size: nat, total: nat) {
    forall k: nat :: !Reaches(size, total, k)
  }

  lemma ReachesTwice(size: nat, total: nat, k: nat)
    ensures Reaches(size, total, k + 1) <==> Reaches(2 * size, total, k)
  {
    var p := Pow2(k);
    assert Pow2(k + 1) == 2 * p;
    assert size * (2 * p) == (2 * size) * p;
  }

  lemma ReachesNever(size: nat, total: nat, k: nat)
    requires size > SIZE_MAX
    ensures !Reaches(size, total, k)
  {
    AtLeast(size, Pow2(k));
  }

  lemma AtLeast(a: nat, b: nat)
    requires b > 0
    ensures a * b >= a
  {}

  /** There is no such number if and only if no number of doublings reaches the total. */
  lemma {:induction false} DoubledIff(size: nat, total: nat)
    requires 0 < size <= SIZE_MAX
    ensures Doubled(size, total).None? <==> NeverReaches(size, total)
    decreases total - size
  {
    if size >= total {
      assert size * Pow2(0) == size;
      assert Reaches(size, total, 0);
    } else {
      assert !Reaches(size, total, 0);
      if 2 * size <= SIZE_MAX {
        DoubledIff(2 * size, total);
      }
      forall k: nat ensures Reaches(size, total, k + 1) <==> Reaches(2 * size, total, k) {
        ReachesTwice(size, total, k);
      }
      forall k: nat | Reaches(size, total, k) ensures 2 * size <= SIZE_MAX && Reaches(2 * size, total, k - 1) {
        ReachesTwice(size, total, k - 1);
        if 2 * size > SIZE_MAX {
          ReachesNever(2 * size, total, k - 1);
        }
      }
    }
  }

  /** The size, doubled k times, is enough, and doubled less often it is not. */
  ghost predicate FirstReach(size: nat, total: nat, k: nat) {
    Reaches(size, total, k) && forall j: nat :: j < k ==> size * Pow2(j) < total
  }

  /** The least of size, 2 * size, 4 * size, ... that is enough. */
  ghost predicate LeastReach(size: nat, total: nat, c: nat) {
    exists k: nat :: FirstReach(size, total, k) && c == size * Pow2(k)
  }

  /** What doubling gives is the least number that is enough. */
  lemma {:induction false} DoubledLeast(size: nat, total: nat)
    requires 0 < size <= SIZE_MAX && Doubled(size, total).Some?
    ensures LeastReach(size, total, Doubled(size, total).value)
    decreases total - size
  {
    assert size * Pow2(0) == size;
    if size >= total {
      assert FirstReach(size, total, 0);
    } else {
      DoubledLeast(2 * size, total);
      var k: nat :| FirstReach(2 * size, total, k) && Doubled(size, total).value == 2 * size * Pow2(k);
      ReachesTwice(size, total, k);
      forall j: nat | j < k + 1 ensures size * Pow2(j) < total {
        if j > 0 {
          TwiceTwo(size, j - 1);
        }
      }
      TwiceTwo(size, k);
      assert FirstReach(size, total, k + 1);
    }
  }

  lemma TwiceTwo(size: nat, k: nat)
    ensures size * Pow2(k + 1) == 2 * size * Pow2(k)
  {
    var p := Pow2(k);
    assert size * (2 * p) == 2 * size * p;
  }

  function Max(a: nat, b: nat): nat {
    if a < b then b else a
  }

  /** The size of a frame that can hold its record, the poison and an object of a size. */
  function Needed(a: Arena, size: nat): Option<nat>
    requires a.frameSize > 0
  {
    if size + HEADER > SIZE_MAX || a.poison + (size + HEADER) > SIZE_MAX then None
    else Doubled(a.frameSize, a.poison + (size + HEADER))
  }

  datatype Place = Place(frame: nat, off: nat)

  /** Allocation; None is an error exit. */
  function Malloc(a: Arena, size: nat, mem: Memory): Option<(Arena, Place)>
    requires a.frames != [] && a.frameSize > 0
  {
    if Fits(Top(a), size) then Some((Push(a, Top(a).len, size), Place(|a.frames| - 1, Top(a).len)))
    else
      match Needed(a, size)
      case None => None
      case Some(fs) =>
        match FrameAlloc(a, fs, mem)
        case None => None
        case Some(b) =>
          if Fits(Top(b), size) then Some((Push(b, Top(b).len, size), Place(|b.frames| - 1, Top(b).len))) else None
  }

  /** Shrinking, or growing the object at the end of the last frame; None if that is not possible. */
  function ReallocFast(a: Arena, p: Place, old_: nat, new_: nat): Option<Arena>
    requires a.frames != []
  {
    if new_ <= old_ then Some(a)
    else if p.frame != |a.frames| - 1 || Align(a.poison, p.off + old_) != Top(a).len then None
    else if !Fits(Top(a).(len := p.off), new_) then None
    else Some(Push(a, p.off, new_))
  }

  // ----- facts about frames -----

  predicate FrameOk(f: Frame) {
    f.size % 8 == 0 && f.len % 8 == 0 && HEADER <= f.len <= f.size <= SIZE_MAX && |f.data| == f.size
  }

  predicate ArenaOk(a: Arena) {
    && (a.poison == 0 || a.poison == 8)
    && a.frameSize % 8 == 0 && HEADER <= a.frameSize <= SIZE_MAX
    && forall i :: 0 <= i < |a.frames| ==> FrameOk(a.frames[i])
  }

  lemma AlignFacts(poison: nat, n: nat)
    requires poison % 8 == 0
    ensures Align(poison, n) >= n && Align(poison, n) % 8 == 0
    ensures poison == 0 && n % 8 == 0 ==> Align(poison, n) == n
    ensures poison == 8 && n % 8 == 0 && n + 8 <= SIZE_MAX ==> Align(poison, n) == n + 8
  {}

  /** An aligned address is the first multiple of eight that leaves room for the poison; at the end of memory there is none. */
  lemma AlignIs(poison: nat, n: nat)
    requires poison % 8 == 0
    ensures Align(poison, n) % 8 == 0
    ensures n + poison + 7 <= SIZE_MAX ==> n + poison <= Align(poison, n) < n + poison + 8
    ensures n <= Align(poison, n) && (poison == 0 ==> Align(poison, n) < n + 8)
    ensures n + 7 <= SIZE_MAX ==> Align(poison, n) <= SIZE_MAX
  {}

  lemma AlignMonotone(poison: nat, n: nat, m: nat, size: nat)
    requires (poison == 0 || poison == 8) && n <= m && size <= SIZE_MAX
    ensures Min(Align(poison, n), size) <= Min(Align(poison, m), size)
  {
    AlignFacts(poison, n);
    AlignFacts(poison, m);
  }

  lemma {:induction false} DoubledMultiple(size: nat, total: nat)
    requires size > 0 && size % 8 == 0
    ensures Doubled(size, total).Some? ==> Doubled(size, total).value % 8 == 0
    decreases total - size
  {
    if size < total && 2 * size <= SIZE_MAX {
      DoubledMultiple(2 * size, total);
    }
  }

  lemma TakenOk(poison: nat, f: Frame, size: nat)
    requires FrameOk(f) && (poison == 0 || poison == 8) && Fits(f, size)
    ensures FrameOk(Taken(poison, f, size)) && f.len + size <= Taken(poison, f, size).len
  {
    AlignFacts(poison, f.len + size);
  }

  /** The new frame has room for what it was made for, whatever the poison. */
  lemma NewFrameFits(a: Arena, size: nat, fs: nat, mem: Memory)
    requires ArenaOk(a) && Sound(mem) && fs % 8 == 0 && a.poison + (size + HEADER) <= fs <= SIZE_MAX
    ensures FrameAlloc(a, fs, mem).Some?
    ensures var b := FrameAlloc(a, fs, mem).value;
            && ArenaOk(b) && |b.frames| == |a.frames| + 1 && b.frames[..|a.frames|] == a.frames
            && Top(b).len == HEADER + a.poison && Top(b).size == fs && Fits(Top(b), size)
  {
    var f := Frame(fs, 0, mem(fs));
    assert Align(a.poison, HEADER) == HEADER + a.poison;
    assert FrameOk(Taken(a.poison, f, HEADER));
  }

  lemma NeededFacts(a: Arena, size: nat)
    requires ArenaOk(a) && Needed(a, size).Some?
    ensures var fs := Needed(a, size).value; fs % 8 == 0 && a.poison + (size + HEADER) <= fs <= SIZE_MAX
  {
    DoubledMultiple(a.frameSize, a.poison + (size + HEADER));
  }

  /** Once arena_malloc has added a frame, taking the bytes from it does not fail. */
  lemma SecondPushSucceeds(a: Arena, size: nat, mem: Memory)
    requires ArenaOk(a) && Sound(mem) && Needed(a, size).Some?
    ensures var b := FrameAlloc(a, Needed(a, size).value, mem); b.Some? && Fits(Top(b.value), size)
  {
    NeededFacts(a, size);
    NewFrameFits(a, size, Needed(a, size).value, mem);
  }

  /**
   Allocation fails exactly if the last frame has no room and no number of doublings
   of the frame size is enough for the object, the record of a frame and the poison.
   */
  lemma MallocFails(a: Arena, size: nat, mem: Memory)
    requires ArenaOk(a) && a.frames != [] && Sound(mem)
    ensures Malloc(a, size, mem).None? <==>
            !Fits(Top(a), size) && NeverReaches(a.frameSize, a.poison + (size + HEADER))
  {
    DoubledIff(a.frameSize, a.poison + (size + HEADER));
    if Needed(a, size).Some? {
      SecondPushSucceeds(a, size, mem);
    }
  }

  /**
   Where an object goes: to the end of the last frame if that has room for it, and else
   behind the record and the poison of one new frame, whose size is the first doubling
   of the frame size that is enough.
   */
  lemma MallocPlace(a: Arena, size: nat, mem: Memory)
    requires ArenaOk(a) && a.frames != [] && Sound(mem) && Malloc(a, size, mem).Some?
    ensures var (b, p) := Malloc(a, size, mem).value;
            && b.frames != [] && p.frame == |b.frames| - 1
            && if Top(a).len + size <= Top(a).size then |b.frames| == |a.frames| && p.off == Top(a).len
               else |b.frames| == |a.frames| + 1 && p.off == 32 + a.poison && LeastReach(a.frameSize, a.poison + size + 32, Top(b).size)
  {
    if !Fits(Top(a), size) {
      DoubledLeast(a.frameSize, a.poison + (size + HEADER));
      assert a.poison + (size + HEADER) == a.poison + size + 32;
      NeededFacts(a, size);
      NewFrameFits(a, size, Needed(a, size).value, mem);
    }
  }

  /**
   What an allocation adds to the statistics: the bytes of the object with what aligns
   its end, and where a frame is added, the same for the record of the frame.
   */
  lemma MallocCounts(a: Arena, size: nat, mem: Memory)
    requires ArenaOk(a) && a.frames != [] && Sound(mem) && Malloc(a, size, mem).Some?
    ensures var (b, p) := Malloc(a, size, mem).value;
            var more := Align(a.poison, p.off + size) - p.off + if |b.frames| > |a.frames| then 32 + a.poison else 0;
            && b.bytes.now == a.bytes.now + more && b.bytes.total == a.bytes.total + more
            && b.frameStat.now - a.frameStat.now == b.frameStat.total - a.frameStat.total == |b.frames| - |a.frames|
            && b.scopeStat == a.scopeStat
  {
    hide Align, Doubled;
    if !Fits(Top(a), size) {
      FrameCounts(a, Needed(a, size).value, mem);
    }
  }

  lemma FrameCounts(a: Arena, fs: nat, mem: Memory)
    requires ArenaOk(a) && FrameAlloc(a, fs, mem).Some?
    ensures var b := FrameAlloc(a, fs, mem).value;
            && b.bytes.now == a.bytes.now + (32 + a.poison) && b.bytes.total == a.bytes.total + (32 + a.poison)
            && b.frameStat.now == a.frameStat.now + 1 && b.frameStat.total == a.frameStat.total + 1
  {
    assert Align(a.poison, HEADER) == HEADER + a.poison;
  }

  /** An object is left where it is if it does not grow, and if it ends the last frame and the frame has room. */
  lemma ReallocFastIff(a: Arena, p: Place, old_: nat, new_: nat)
    requires ArenaOk(a) && a.frames != []
    ensures ReallocFast(a, p, old_, new_).Some? <==>
            || new_ <= old_
            || (p.frame == |a.frames| - 1 && Align(a.poison, p.off + old_) == Top(a).len && p.off + new_ <= Top(a).size)
    ensures new_ <= old_ ==> ReallocFast(a, p, old_, new_) == Some(a)
    ensures new_ > old_ && ReallocFast(a, p, old_, new_).Some? ==>
              var b := ReallocFast(a, p, old_, new_).value;
              && b.frames != [] && |b.frames| == |a.frames| && Top(b).size == Top(a).size
              && Top(b).len == Min(Align(a.poison, p.off + new_), Top(a).size)
              && b.bytes.now == a.bytes.now + (Align(a.poison, p.off + new_) - p.off)
  {}
}
