/**
 libks/arena.c as code: frames are linked objects with a byte array each, and the
 arena is changed in place. Every method does what the function of the same name
 says; an error exit is a result of None.
 */
module ArenaCode {
  import opened Wrappers
  import opened Arithmetic
  import A = Arena
  import S = ArenaScopes
  import R = ArenaRuns

  type Byte = A.Byte

  /** Trap is the failed check of the scope, Fatal an error exit; otherwise the object is in the last frame. */
  datatype Outcome = Trap | Fatal | Ok(off: nat)

  class Frame {
    const ptr: array<Byte>
    var len: nat
    const next: Frame?

    constructor (ptr: array<Byte>, len: nat, next: Frame?)
      ensures this.ptr == ptr && this.len == len && this.next == next
    {
      this.ptr, this.len, this.next := ptr, len, next;
    }

    /** The frame as a value. */
    ghost function View(): A.Frame
      reads this, ptr
    {
      A.Frame(ptr.Length, len, ptr[..])
    }
  }

  /** Memory that holds the given bytes for a request of their number. */
  ghost function FreshMemory(bytes: seq<Byte>): (mem: A.Memory)
    ensures A.Sound(mem) && mem(|bytes|) == bytes
  {
    (n: nat) => if n == |bytes| then bytes else seq(n, _ => 0)
  }

  ghost function Views(stack: seq<Frame>): (r: seq<A.Frame>)
    reads stack, set f | f in stack :: f.ptr
    ensures |r| == |stack|
  {
    if stack == [] then [] else Views(stack[..|stack| - 1]) + [stack[|stack| - 1].View()]
  }

  lemma {:induction false} ViewsAt(stack: seq<Frame>, k: nat)
    requires k < |stack|
    ensures Views(stack)[k] == stack[k].View()
  {
    if k < |stack| - 1 {
      ViewsAt(stack[..|stack| - 1], k);
    }
  }

  lemma {:induction false} ViewsPrefix(stack: seq<Frame>, n: nat)
    requires n <= |stack|
    ensures Views(stack[..n]) == Views(stack)[..n]
  {
    if n == |stack| {
      assert stack[..n] == stack;
    } else {
      assert stack[..|stack| - 1][..n] == stack[..n];
      ViewsPrefix(stack[..|stack| - 1], n);
    }
  }

  ghost function Last(stack: seq<Frame>): Frame? {
    if stack == [] then null else stack[|stack| - 1]
  }

  /** Each frame links to the one before it, and no two are the same. */
  ghost predicate Chain(stack: seq<Frame>) {
    && (forall i :: 0 <= i < |stack| ==> stack[i].next == Last(stack[..i]))
    && (forall i, j :: 0 <= i < j < |stack| ==> stack[i] != stack[j] && stack[i].ptr != stack[j].ptr)
  }

  lemma ChainPrefix(stack: seq<Frame>, n: nat)
    requires Chain(stack) && n <= |stack|
    ensures Chain(stack[..n])
  {
    forall i | 0 <= i < n ensures stack[..n][i].next == Last(stack[..n][..i]) {
      assert stack[..n][..i] == stack[..i];
    }
  }

  lemma ChainAppend(stack: seq<Frame>, f: Frame)
    requires Chain(stack) && f.next == Last(stack)
    requires forall i :: 0 <= i < |stack| ==> stack[i] != f && stack[i].ptr != f.ptr
    ensures Chain(stack + [f])
  {
    forall i | 0 <= i <= |stack| ensures (stack + [f])[i].next == Last((stack + [f])[..i]) {
      assert (stack + [f])[..i] == stack[..i];
      assert stack[..|stack|] == stack;
    }
  }

  class Arena {
    var frame: Frame?
    const frameSize: nat
    const poison: nat
    var refs: int
    var bytes: A.Stat
    var frameStat: A.Stat
    var scopeStat: A.Stat
    /** The frames that are linked, the last one first in the list. */
    ghost var stack: seq<Frame>
    /** The arena as a value. */
    ghost var now: A.Arena

    ghost function View(): A.Arena
      reads this, stack, set f | f in stack :: f.ptr
    {
      A.Arena(Views(stack), frameSize, poison, refs, bytes, frameStat, scopeStat)
    }

    ghost predicate Valid()
      reads this, stack, set f | f in stack :: f.ptr
    {
      (poison == 0 || poison == 8) && frame == Last(stack) && Chain(stack) && now == View()
    }

    /** The frames are as frames should be; the last one is there as long as the arena is. */
    ghost predicate Good()
      reads this, stack, set f | f in stack :: f.ptr
    {
      Valid() && A.ArenaOk(now) && now.frames != [] && frame != null
    }

    /** A new arena; its frames are multiples of the page size. */
    constructor (frameSize: nat, poison: nat)
      requires (poison == 0 || poison == 8) && frameSize % 8 == 0 && A.HEADER + poison <= frameSize <= SIZE_MAX
      ensures Good() && now.poison == poison && now.frameSize == frameSize && now.refs == 1 && |now.frames| == 1
    {
      this.frameSize, this.poison := frameSize, poison;
      frame, refs, stack := null, 1, [];
      bytes, frameStat, scopeStat := A.Stat(0, 0, 0), A.Stat(0, 0, 0), A.Stat(0, 0, 0);
      now := A.Arena([], frameSize, poison, 1, A.Stat(0, 0, 0), A.Stat(0, 0, 0), A.Stat(0, 0, 0));
      new;
      ghost var a := now;
      var ok;
      ghost var mem;
      ok, mem := FrameAlloc(frameSize);
      A.NewFrameFits(a, 0, frameSize, mem);
    }

    /** The mask form of rounding up to a multiple of eight. */
    method AlignAddress(addr: nat) returns (r: nat)
      requires addr + 7 <= SIZE_MAX && (poison == 0 || poison == 8)
      ensures r == A.Align(poison, addr)
    {
      r := BitAnd(addr + 7, SIZE_MAX - 7);
      RoundUp(addr);
      if poison > 0 && r - addr < poison {
        var sum := UnsignedAdd(SIZE_MAX, poison, r);
        if sum.Value? {
          r := sum.v;
        }
      }
    }

    /** Counts taken bytes. */
    method StatsBytes(n: nat)
      modifies `bytes
      ensures bytes == A.Add(old(bytes), n)
    {
      bytes := A.Stat(bytes.now + n, bytes.max, bytes.total + n);
      if bytes.now > bytes.max {
        bytes := bytes.(max := bytes.now);
      }
    }

    /** Takes bytes from a frame if they fit; the place is where the frame ended. */
    method Push(f: Frame, size: nat) returns (off: Option<nat>)
      requires f.ptr.Length + 7 <= SIZE_MAX && (poison == 0 || poison == 8)
      modifies `bytes, f`len
      ensures off == if A.Fits(old(f.View()), size) then Some(old(f.len)) else None
      ensures off.None? ==> bytes == old(bytes) && f.len == old(f.len)
      ensures off.Some? ==> f.View() == A.Taken(poison, old(f.View()), size) &&
                            bytes == A.Add(old(bytes), A.Spent(poison, old(f.View()), size))
    {
      if f.len > SIZE_MAX || size > SIZE_MAX {
        return None;
      }
      var sum := UnsignedAdd(SIZE_MAX, f.len, size);
      if sum == Overflow {
        return None;
      }
      var newlen: nat := sum.v;
      if newlen > f.ptr.Length {
        return None;
      }
      off := Some(f.len);
      var oldlen := newlen;
      newlen := AlignAddress(newlen);
      f.len := if newlen > f.ptr.Length then f.ptr.Length else newlen;
      StatsBytes(size + (newlen - oldlen));
    }

    /** A frame that is not linked yet, after its own record was taken from it. */
    method NewFrame(size: nat) returns (f: Frame, ok: bool, ghost mem: A.Memory)
      requires size + 7 <= SIZE_MAX && (poison == 0 || poison == 8)
      modifies `bytes
      ensures fresh(f) && fresh(f.ptr) && f.next == frame && A.Sound(mem) && f.ptr.Length == size
      ensures ok == A.Fits(A.Frame(size, 0, mem(size)), A.HEADER)
      ensures ok ==> f.View() == A.Taken(poison, A.Frame(size, 0, mem(size)), A.HEADER)
      ensures ok ==> bytes == A.Add(old(bytes), A.Spent(poison, A.Frame(size, 0, mem(size)), A.HEADER))
      ensures !ok ==> bytes == old(bytes)
    {
      var ptr := new Byte[size];
      f := new Frame(ptr, 0, frame);
      mem := FreshMemory(ptr[..]);
      var off := Push(f, A.HEADER);
      ok := off.Some?;
    }

    /** Links a frame; the bytes that its own record takes are counted already. */
    method Link(f: Frame, ghost counted: A.Stat)
      requires poison == 0 || poison == 8
      requires frame == Last(stack) && Chain(stack) && now == View().(bytes := counted)
      requires f.next == frame && forall i :: 0 <= i < |stack| ==> stack[i] != f && stack[i].ptr != f.ptr
      modifies `frame, `stack, `frameStat, `now
      ensures Valid() && frame == f && stack == old(stack) + [f]
      ensures now == old(now).(frames := old(now.frames) + [f.View()], bytes := bytes, frameStat := A.Add(old(now.frameStat), 1))
    {
      hide Chain;
      ChainAppend(stack, f);
      assert (stack + [f])[..|stack|] == stack;
      now := now.(frames := now.frames + [f.View()], bytes := bytes, frameStat := A.Add(frameStat, 1));
      frame, stack, frameStat := f, stack + [f], A.Add(frameStat, 1);
    }

    /** Adds a frame of a size; fails if it cannot even hold its own record. */
    method FrameAlloc(size: nat) returns (ok: bool, ghost mem: A.Memory)
      requires Valid() && size + 7 <= SIZE_MAX
      modifies `frame, `stack, `bytes, `frameStat, `now
      ensures Valid() && A.Sound(mem)
      ensures A.FrameAlloc(old(now), size, mem) == if ok then Some(now) else None
      ensures ok ==> frame != null && fresh(frame) && fresh(frame.ptr)
      ensures !ok ==> now == old(now) && stack == old(stack)
    {
      ghost var counted := bytes;
      var f;
      f, ok, mem := NewFrame(size);
      if ok {
        Link(f, counted);
      }
    }

    /** Takes bytes from the last frame as if it ended at `off`. */
    method PushFrom(off: nat, size: nat) returns (ok: bool)
      requires Good()
      modifies `bytes, `now, frame`len
      ensures Valid() && frame == old(frame)
      ensures ok == A.Fits(A.Top(old(now)).(len := off), size)
      ensures now == if ok then A.Push(old(now), off, size) else old(now)
      ensures ok ==> off + size <= frame.ptr.Length
    {
      assert A.FrameOk(now.frames[|stack| - 1]);
      ghost var counted := bytes;
      var f := new Frame(frame.ptr, off, frame.next);
      var o := Push(f, size);
      if o.None? {
        return false;
      }
      StoreLen(f.len, counted);
      return true;
    }

    /** Sets the length of the last frame; the bytes that this takes are counted already. */
    method StoreLen(len: nat, ghost counted: A.Stat)
      requires poison == 0 || poison == 8
      requires frame == Last(stack) && Chain(stack) && frame != null && now == View().(bytes := counted)
      modifies `now, frame`len
      ensures Valid() && frame == old(frame)
      ensures now == A.SetTop(old(now), A.Top(old(now)).(len := len)).(bytes := bytes)
    {
      now := A.SetTop(now, A.Top(now).(len := len)).(bytes := bytes);
      frame.len := len;
    }

    /** Takes bytes from the last frame. */
    method PushLast(size: nat) returns (off: Option<nat>)
      requires Good()
      modifies `bytes, `now, frame`len
      ensures Valid() && frame == old(frame)
      ensures off == if A.Fits(A.Top(old(now)), size) then Some(A.Top(old(now)).len) else None
      ensures now == if off.Some? then A.Push(old(now), A.Top(old(now)).len, size) else old(now)
      ensures off.Some? ==> off.value == old(frame.len) && off.value + size <= frame.ptr.Length
    {
      assert A.FrameOk(now.frames[|stack| - 1]);
      off := Push(frame, size);
      if off.Some? {
        now := A.Push(now, A.Top(now).len, size);
      }
    }

    /** Doubles the size of frames until it suffices. */
    method FrameSizeFor(size: nat) returns (fs: Option<nat>)
      requires Valid() && 0 < frameSize <= SIZE_MAX
      ensures fs == A.Needed(now, size)
    {
      if size > SIZE_MAX {
        return None;
      }
      var sum := UnsignedAdd(SIZE_MAX, size, A.HEADER);
      if sum == Overflow {
        return None;
      }
      sum := UnsignedAdd(SIZE_MAX, poison, sum.v);
      if sum == Overflow {
        return None;
      }
      var total: nat := sum.v;
      var size := frameSize;
      while size < total
        invariant 0 < size <= SIZE_MAX && A.Doubled(frameSize, total) == A.Doubled(size, total)
        decreases total - size
      {
        var twice := UnsignedMul(SIZE_MAX, 2, size);
        if twice == Overflow {
          return None;
        }
        size := twice.v;
      }
      return Some(size);
    }

    /** Allocates through a scope, which must be the innermost one. */
    method Malloc(s: Scope, size: nat) returns (r: Outcome, ghost mem: A.Memory)
      requires Good()
      modifies `frame, `stack, `bytes, `frameStat, `now, frame`len
      ensures Valid() && frame != null && (frame == old(frame) || fresh(frame.ptr))
      ensures Allocates(old(now), size, mem, s.id == refs, r, now)
      ensures r.Ok? ==> r.off + size <= frame.ptr.Length && (frame == old(frame) ==> r.off == old(frame.len))
    {
      if s.id != refs {
        return Trap, FreshMemory([]);
      }
      r, mem := MallocChecked(size);
    }

    method MallocChecked(size: nat) returns (r: Outcome, ghost mem: A.Memory)
      requires Good()
      modifies `frame, `stack, `bytes, `frameStat, `now, frame`len
      ensures Valid() && frame != null && (frame == old(frame) || fresh(frame.ptr))
      ensures Allocates(old(now), size, mem, true, r, now)
      ensures r.Ok? ==> r.off + size <= frame.ptr.Length && (frame == old(frame) ==> r.off == old(frame.len))
    {
      var off := PushLast(size);
      if off.Some? {
        return Ok(off.value), FreshMemory([]);
      }
      r, mem := MallocMore(size);
    }

    /** Allocates from a new frame that is large enough. */
    method MallocMore(size: nat) returns (r: Outcome, ghost mem: A.Memory)
      requires Good() && !A.Fits(A.Top(now), size)
      modifies `frame, `stack, `bytes, `frameStat, `now
      ensures Valid() && frame != null && (frame == old(frame) || fresh(frame.ptr))
      ensures Allocates(old(now), size, mem, true, r, now)
      ensures r.Ok? ==> r.off + size <= frame.ptr.Length && frame != old(frame)
    {
      var fs := FrameSizeFor(size);
      if fs.None? {
        return Fatal, FreshMemory([]);
      }
      A.NeededFacts(now, size);
      ghost var a, b := now, now;
      r, mem, b := MallocFrom(fs.value, size);
      MallocSecond(a, size, b, mem);
    }

    /** Adds a frame of a size that suffices, and takes the bytes from it. */
    method MallocFrom(fs: nat, size: nat) returns (r: Outcome, ghost mem: A.Memory, ghost b: A.Arena)
      requires Good() && fs % 8 == 0 && poison + (size + A.HEADER) <= fs <= SIZE_MAX
      modifies `frame, `stack, `bytes, `frameStat, `now
      ensures Valid() && A.Sound(mem) && frame != null && fresh(frame) && fresh(frame.ptr)
      ensures A.FrameAlloc(old(now), fs, mem) == Some(b) && b.frames != [] && A.Fits(A.Top(b), size)
      ensures now == A.Push(b, A.Top(b).len, size) && r == Ok(A.Top(b).len) && A.Top(b).len + size <= frame.ptr.Length
    {
      ghost var a := now;
      var ok;
      ok, mem := FrameAlloc(fs);
      b := now;
      A.NewFrameFits(a, size, fs, mem);
      var off := PushLast(size);
      return Ok(off.value), mem, b;
    }

    /** Shrinks an object, or grows it in place if it is the last of the last frame. */
    method ReallocFast(f: Frame, off: nat, ghost k: nat, used: nat, size: nat) returns (ok: bool)
      requires Good() && k < |stack| && stack[k] == f && off + used <= f.ptr.Length
      modifies `bytes, `now, frame`len
      ensures Valid() && frame == old(frame)
      ensures A.ReallocFast(old(now), A.Place(k, off), used, size) == if ok then Some(now) else None
      ensures !ok ==> now == old(now)
    {
      if size <= used {
        return true;
      }
      ViewsAt(stack, k);
      assert A.FrameOk(now.frames[k]);
      var end := AlignAddress(off + used);
      if f != frame || end != frame.len {
        return false;
      }
      ok := PushFrom(off, size);
    }

    /** Copies bytes into an object of the last frame. */
    method CopyIn(src: array<Byte>, from: nat, used: nat, off: nat, ghost bytes: seq<Byte>)
      requires Valid() && frame != null && from + used <= src.Length && off + used <= frame.ptr.Length
      requires (src == frame.ptr ==> from + used <= off) && bytes == src[from..from + used]
      modifies `now, frame.ptr
      ensures Valid() && now == S.Write(old(now), |old(now.frames)| - 1, off, bytes)
    {
      WriteTop(now, off, bytes);
      now := S.Write(now, |now.frames| - 1, off, bytes);
      MemCpy(src, from, frame.ptr, off, used);
    }

    /** Reallocates in place if possible; otherwise the object moves to the end of the last frame. */
    method Realloc(s: Scope, f: Frame, off: nat, ghost k: nat, used: nat, size: nat, ghost bytes: seq<Byte>)
      returns (r: Outcome, moved: bool, ghost mem: A.Memory, ghost b: A.Arena)
      requires Good() && k < |stack| && stack[k] == f && off + used <= f.ptr.Length && (f == frame ==> off + used <= f.len)
      requires bytes == f.ptr[off..off + used]
      modifies `frame, `stack, `bytes, `frameStat, `now, frame`len
      modifies frame.ptr
      ensures Valid()
      ensures !moved ==> r == Ok(off) && A.ReallocFast(old(now), A.Place(k, off), used, size) == Some(now)
      ensures moved ==> A.ReallocFast(old(now), A.Place(k, off), used, size) == None &&
                        Moves(old(now), size, mem, s.id == refs, r, b, bytes, now)
    {
      mem, b := FreshMemory([]), now;
      var ok := ReallocFast(f, off, k, used, size);
      moved := !ok;
      if ok {
        return Ok(off), false, mem, b;
      }
      r, mem, b := Move(s, f.ptr, off, used, size, bytes);
    }

    /** Allocates again and copies what is in use. */
    method Move(s: Scope, src: array<Byte>, from: nat, used: nat, size: nat, ghost bytes: seq<Byte>)
      returns (r: Outcome, ghost mem: A.Memory, ghost b: A.Arena)
      requires Good() && from + used <= src.Length && used <= size && (src == frame.ptr ==> from + used <= frame.len)
      requires bytes == src[from..from + used]
      modifies `frame, `stack, `bytes, `frameStat, `now, frame`len
      modifies frame.ptr
      ensures Valid() && Moves(old(now), size, mem, s.id == refs, r, b, bytes, now)
    {
      r, mem := Malloc(s, size);
      b := now;
      if r.Ok? {
        CopyIn(src, from, used, r.off, bytes);
      }
    }

    /** Enters a scope, which remembers how far the arena is used. */
    method ScopeEnter() returns (s: Scope)
      requires Good()
      modifies `refs, `scopeStat, `now
      ensures Good() && fresh(s) && stack == old(stack) && s.frame == frame
      ensures now == old(now).(refs := old(refs) + 1, scopeStat := A.Add(old(scopeStat), 1))
      ensures s.View(|stack|) ==
              S.Scope(|stack|, A.Top(old(now)).len, old(bytes.now), old(frameStat.now), old(scopeStat.now), old(refs) + 1, [])
    {
      now := now.(refs := refs + 1, scopeStat := A.Add(scopeStat, 1));
      refs := refs + 1;
      s := new Scope(frame, frame.len, bytes.now, frameStat.now, scopeStat.now, refs);
      scopeStat := A.Add(scopeStat, 1);
    }

    /** Pops frames until the given one is the last. */
    method PopFrames(last: Frame?, ghost n: nat)
      requires Valid() && n <= |stack| && last == Last(stack[..n])
      modifies `frame, `stack, `now
      ensures Valid() && stack == old(stack)[..n] && now == old(now).(frames := R.PopTo(old(now.frames), n))
    {
      ghost var was := stack;
      PopUntil(last, n);
      ChainPrefix(was, n);
      ViewsPrefix(was, n);
      now := now.(frames := R.PopTo(now.frames, n));
    }

    method PopUntil(last: Frame?, ghost n: nat)
      requires n <= |stack| && last == Last(stack[..n]) && frame == Last(stack) && Chain(stack)
      modifies `frame, `stack
      ensures stack == old(stack)[..n] && frame == last
    {
      ghost var was := stack;
      assert stack[..|stack|] == stack;
      while frame != null && frame != last
        invariant n <= |stack| <= |was| && stack == was[..|stack|] && frame == Last(stack)
        decreases |stack|
      {
        ghost var m := |stack| - 1;
        assert was[..|stack|][..m] == was[..m];
        frame, stack := frame.next, stack[..m];
      }
    }

    /** Cuts the last frame to a length. */
    method CutLast(len: nat)
      requires Valid()
      modifies `now, stack
      ensures Valid() && now == old(now).(frames := R.Cut(old(now.frames), len))
    {
      if frame != null {
        StoreLen(if len <= frame.len then len else 0, bytes);
      }
    }

    /** Sets the current statistics back and drops a reference. */
    method RestoreStats(s: Scope)
      requires Valid()
      modifies `refs, `bytes, `frameStat, `scopeStat, `now
      ensures Valid()
      ensures now == old(now).(bytes := R.Restored(old(bytes), s.bytes), frameStat := R.Restored(old(frameStat), s.frames),
                               scopeStat := R.Restored(old(scopeStat), s.scopes), refs := old(refs) - 1)
    {
      now := now.(bytes := R.Restored(bytes, s.bytes), frameStat := R.Restored(frameStat, s.frames),
                  scopeStat := R.Restored(scopeStat, s.scopes), refs := refs - 1);
      bytes := bytes.(now := s.bytes);
      frameStat := frameStat.(now := s.frames);
      scopeStat := scopeStat.(now := s.scopes);
      refs := refs - 1;
    }

    /** Leaves the innermost scope: its cleanups run, later frames are released, and the last one is cut. */
    method ScopeLeave(s: Scope, ghost n: nat) returns (ran: seq<nat>)
      requires Valid() && n <= |stack| && s.frame == Last(stack[..n])
      modifies `frame, `stack, `refs, `bytes, `frameStat, `scopeStat, `now, s`cleanups
      modifies stack
      ensures Valid() && ran == old(s.cleanups) && s.cleanups == []
      ensures now == R.LeaveArena(old(now), old(s.View(n)))
    {
      ran := s.cleanups;
      s.cleanups := [];
      var last := if refs == 1 then null else s.frame;
      assert stack[..0] == [];
      PopFrames(last, if refs == 1 then 0 else n);
      CutLast(s.frameLen);
      RestoreStats(s);
    }

    /** Drops the caller's reference; without scopes everything is released. */
    method Free()
      requires Valid()
      modifies `frame, `stack, `refs, `bytes, `frameStat, `scopeStat, `now
      modifies stack
      ensures Valid()
      ensures now == if old(refs) > 1 then old(now).(refs := old(refs) - 1)
                     else R.LeaveArena(old(now), S.Scope(0, 0, 0, 0, 0, 0, []))
    {
      if refs > 1 {
        now := now.(refs := refs - 1);
        refs := refs - 1;
      } else {
        var s := new Scope(null, 0, 0, 0, 0, 0);
        assert stack[..0] == [];
        var ran := ScopeLeave(s, 0);
      }
    }
  }

  /** What an allocation does to an arena a. */
  ghost predicate Allocates(a: A.Arena, size: nat, mem: A.Memory, innermost: bool, r: Outcome, b: A.Arena) {
    && A.Sound(mem) && a.frames != [] && a.frameSize > 0 && b.frames != [] && (r.Trap? <==> !innermost)
    && match r
       case Trap => b == a
       case Fatal => b == a && A.Malloc(a, size, mem) == None
       case Ok(off) => A.Malloc(a, size, mem) == Some((b, A.Place(|b.frames| - 1, off)))
  }

  /** What moving an object does; b is the arena between the allocation and the copy. */
  ghost predicate Moves(a: A.Arena, size: nat, mem: A.Memory, innermost: bool, r: Outcome, b: A.Arena, bytes: seq<Byte>, c: A.Arena) {
    Allocates(a, size, mem, innermost, r, b) && c == if r.Ok? then S.Write(b, |b.frames| - 1, r.off, bytes) else b
  }

  /** Copies bytes between ranges that do not overlap. */
  method MemCpy(src: array<Byte>, from: nat, dst: array<Byte>, to: nat, n: nat)
    requires from + n <= src.Length && to + n <= dst.Length
    requires src == dst ==> from + n <= to || to + n <= from
    modifies dst
    ensures dst[..] == old(dst[..])[..to] + old(src[from..from + n]) + old(dst[..])[to + n..]
  {
    var i := 0;
    while i < n
      invariant i <= n
      invariant forall j :: 0 <= j < dst.Length ==> dst[j] == if to <= j < to + i then old(src[from + j - to]) else old(dst[j])
    {
      dst[to + i] := src[from + i];
      i := i + 1;
    }
  }

  class Scope {
    const frame: Frame?
    const frameLen: nat
    const bytes: nat
    const frames: nat
    const scopes: nat
    const id: int
    var cleanups: seq<nat>

    /** The scope as a value, where n is the number of frames up to its own. */
    ghost function View(n: nat): S.Scope
      reads this
    {
      S.Scope(n, frameLen, bytes, frames, scopes, id, cleanups)
    }

    constructor (frame: Frame?, frameLen: nat, bytes: nat, frames: nat, scopes: nat, id: int)
      ensures this.frame == frame && this.frameLen == frameLen && this.bytes == bytes && this.frames == frames
      ensures this.scopes == scopes && this.id == id && cleanups == []
    {
      this.frame, this.frameLen, this.bytes, this.frames, this.scopes, this.id := frame, frameLen, bytes, frames, scopes, id;
      cleanups := [];
    }
  }

  lemma MallocSecond(a: A.Arena, size: nat, b: A.Arena, mem: A.Memory)
    requires a.frames != [] && a.frameSize > 0 && !A.Fits(A.Top(a), size) && A.Needed(a, size).Some?
    requires A.FrameAlloc(a, A.Needed(a, size).value, mem) == Some(b) && b.frames != [] && A.Fits(A.Top(b), size)
    ensures A.Malloc(a, size, mem) == Some((A.Push(b, A.Top(b).len, size), A.Place(|b.frames| - 1, A.Top(b).len)))
  {}

  lemma WriteTop(a: A.Arena, off: nat, bytes: seq<Byte>)
    requires a.frames != [] && off + |bytes| <= |A.Top(a).data|
    ensures var data := A.Top(a).data;
            S.Write(a, |a.frames| - 1, off, bytes) ==
            A.SetTop(a, A.Top(a).(data := data[..off] + bytes + data[off + |bytes|..]))
  {}

  lemma Powers()
    ensures Pow2(3) == 8 && Pow2(64) == SIZE_MAX + 1
  {
    assert Pow2(8) == 256;
    assert Pow2(16) == 256 * 256;
    assert Pow2(24) == 256 * 256 * 256;
    assert Pow2(32) == 256 * 256 * 256 * 256;
    assert Pow2(40) == 0x100_0000_0000;
    assert Pow2(48) == 0x1_0000_0000_0000;
    assert Pow2(56) == 0x100_0000_0000_0000;
  }

  lemma RoundUp(addr: nat)
    requires addr + 7 <= SIZE_MAX
    ensures BitAnd(addr + 7, SIZE_MAX - 7) == A.Up8(addr)
  {
    Powers();
    MaskIsRoundDown(addr + 7, 64, 3);
    Up8Is(addr);
  }

  lemma Up8Is(addr: nat)
    ensures (addr + 7) - (addr + 7) % 8 == A.Up8(addr)
  {}
}
