/**
 libks/vector.c and libks/buffer.c: containers that grow by doubling. The storage
 is an array; growing takes a new one that keeps what is in use and holds anything
 behind it, which is all that both realloc(3) and the arena promise. Storage is
 assumed to be available.
 */
module Growth {
  import opened Wrappers
  import opened Arithmetic
  import opened Arena

  /** The size in elements to grow to, if it can be represented. */
  function Capacity(size: nat, need: nat): Option<nat> {
    Doubled(if size == 0 then 16 else size, need)
  }

  /**
   The capacity of a vector after room for n more elements was asked for; None if
   lengths or bytes cannot be represented.
   */
  function Room(size: nat, len: nat, n: nat, stride: nat, header: nat): (r: Option<nat>)
    ensures r.Some? ==> len + n <= r.value
  {
    if len + n > SIZE_MAX then None
    else if len + n <= size then Some(size)
    else
      match Capacity(size, len + n)
      case None => None
      case Some(c) => if c * stride + header > SIZE_MAX then None else Some(c)
  }

  /** The capacity to start doubling from. */
  function Start(size: nat): nat {
    if size == 0 then 16 else size
  }

  lemma CapacityIs(size: nat, need: nat)
    requires size <= SIZE_MAX
    ensures Start(size) == if size > 0 then size else 16
    ensures Capacity(size, need).None? <==> NeverReaches(Start(size), need)
    ensures Capacity(size, need).Some? ==> LeastReach(Start(size), need, Capacity(size, need).value)
  {
    DoubledIff(Start(size), need);
    if Doubled(Start(size), need).Some? {
      DoubledLeast(Start(size), need);
    }
  }

  /** The start, doubled k times, is enough, and its bytes can be represented. */
  ghost predicate Affords(start: nat, need: nat, stride: nat, header: nat, k: nat) {
    need <= start * Pow2(k) <= SIZE_MAX && start * Pow2(k) * stride + header <= SIZE_MAX
  }

  /** No number of doublings gives a capacity that is enough and can be represented. */
  ghost predicate TooMuch(start: nat, need: nat, stride: nat, header: nat) {
    forall k: nat :: !Affords(start, need, stride, header, k)
  }

  lemma Monotone(x: nat, y: nat, z: nat)
    requires x <= y
    ensures x * z <= y * z
  {}

  lemma PowMonotone(start: nat, k: nat, j: nat)
    requires k <= j
    ensures start * Pow2(k) <= start * Pow2(j)
  {
    Pow2Monotone(k, j);
    Monotone(Pow2(k), Pow2(j), start);
  }

  /** Where the least capacity that is enough takes too many bytes, all others do. */
  lemma LeastDecides(start: nat, need: nat, stride: nat, header: nat, c: nat)
    requires start > 0 && LeastReach(start, need, c)
    ensures TooMuch(start, need, stride, header) <==> c * stride + header > SIZE_MAX
  {
    var k: nat :| FirstReach(start, need, k) && c == start * Pow2(k);
    if c * stride + header <= SIZE_MAX {
      assert Affords(start, need, stride, header, k);
    } else {
      forall j: nat ensures !Affords(start, need, stride, header, j) {
        if j >= k {
          PowMonotone(start, k, j);
          Monotone(start * Pow2(k), start * Pow2(j), stride);
        }
      }
    }
  }

  /**
   Room is refused if and only if the length cannot be represented, or is more than the
   capacity and no number of doublings of it is enough and takes a number of bytes that
   can be represented. A vector that grows takes the least capacity that is enough.
   */
  lemma RoomIff(size: nat, len: nat, n: nat, stride: nat, header: nat)
    requires size <= SIZE_MAX
    ensures var room, start := Room(size, len, n, stride, header), if size > 0 then size else 16;
            && (room.None? <==> len + n > SIZE_MAX || (len + n > size && TooMuch(start, len + n, stride, header)))
            && (room.Some? ==> if len + n <= size then room.value == size else LeastReach(start, len + n, room.value))
  {
    var start, need := Start(size), len + n;
    if size < need <= SIZE_MAX {
      DoubledIff(start, need);
      if Doubled(start, need).Some? {
        DoubledLeast(start, need);
        LeastDecides(start, need, stride, header, Doubled(start, need).value);
      } else {
        forall k: nat ensures !Affords(start, need, stride, header, k) {
          assert !Reaches(start, need, k);
        }
      }
    }
  }

  class Vector<T(0)> {
    var data: array<T>
    var len: nat
    const stride: nat
    /** Bytes of the vector's own record, which is stored in front of the elements. */
    const header: nat

    predicate Valid()
      reads this
    {
      len <= data.Length <= SIZE_MAX && 0 < stride <= SIZE_MAX && header <= SIZE_MAX
    }

    function Contents(): seq<T>
      reads this, data
      requires Valid()
    {
      data[..len]
    }

    constructor (stride: nat, header: nat)
      requires 0 < stride <= SIZE_MAX && header <= SIZE_MAX
      ensures Valid() && fresh(data) && Contents() == [] && data.Length == 0 && this.stride == stride && this.header == header
    {
      data := new T[0];
      len := 0;
      this.stride, this.header := stride, header;
    }

    /** Makes room for n more elements; the contents stay. */
    method Reserve(n: nat) returns (error: bool)
      requires Valid() && n <= SIZE_MAX
      modifies `data
      ensures Valid() && Contents() == old(Contents())
      ensures var room := Room(old(data.Length), len, n, stride, header);
              error == room.None? && data.Length == if error then old(data.Length) else room.value
      ensures error <==> len + n > SIZE_MAX || (len + n > old(data.Length) && TooMuch(Start(old(data.Length)), len + n, stride, header))
      ensures !error && len + n > old(data.Length) ==> LeastReach(Start(old(data.Length)), len + n, data.Length)
      ensures data == old(data) || fresh(data)
      ensures old(data.Length) >= len + n || error ==> data == old(data)
    {
      RoomIff(data.Length, len, n, stride, header);
      hide TooMuch, LeastReach;
      if len > SIZE_MAX - n {
        return true;
      }
      if len + n <= data.Length {
        return false;
      }
      var newsiz := if data.Length != 0 then data.Length else 16;
      while newsiz < len + n
        invariant 0 < newsiz <= SIZE_MAX && Capacity(data.Length, len + n) == Doubled(newsiz, len + n)
        decreases len + n - newsiz
      {
        if newsiz > SIZE_MAX / 2 {
          return true;
        }
        newsiz := newsiz * 2;
      }
      TotalFits(newsiz, stride, header);
      if newsiz > SIZE_MAX / stride {
        return true;
      }
      var totlen := newsiz * stride;
      if totlen > SIZE_MAX - header {
        return true;
      }
      data := Grown(data, len, newsiz);
      return false;
    }

    /** Adds an element with any value, or the given one; None if there is no room. */
    method Alloc(zero: Option<T>) returns (i: Option<nat>)
      requires Valid()
      modifies this, data
      ensures Valid() && (data == old(data) || fresh(data))
      ensures i.None? <==> Room(old(data.Length), old(len), 1, stride, header).None?
      ensures i.None? <==> old(len) + 1 > SIZE_MAX ||
                           (old(len) == old(data.Length) && TooMuch(Start(old(data.Length)), old(len) + 1, stride, header))
      ensures i.None? ==> Contents() == old(Contents())
      ensures i.Some? ==> i.value == old(len) && len == old(len) + 1 && Contents()[..old(len)] == old(Contents())
      ensures i.Some? && zero.Some? ==> Contents() == old(Contents()) + [zero.value]
    {
      var error := Reserve(1);
      if error {
        return None;
      }
      if zero.Some? {
        data[len] := zero.value;
      }
      len := len + 1;
      return Some(len - 1);
    }

    /** Removes the last element, if there is one; its index says where it still is. */
    method Pop() returns (i: Option<nat>)
      requires Valid()
      modifies `len
      ensures Valid()
      ensures old(len) == 0 ==> i == None && Contents() == []
      ensures old(len) > 0 ==> i == Some(old(len) - 1) && old(Contents()) == Contents() + [data[old(len) - 1]]
    {
      if len == 0 {
        return None;
      }
      len := len - 1;
      return Some(len);
    }

    method Copy() returns (dst: Option<Vector<T>>)
      requires Valid()
      ensures dst.None? <==> len > 0 && TooMuch(16, len, stride, header)
      ensures dst.Some? ==> fresh(dst.value) && fresh(dst.value.data) && dst.value.Valid() && dst.value.Contents() == Contents()
    {
      var v := new Vector<T>(stride, header);
      var error := v.Reserve(len);
      if error {
        return None;
      }
      for i := 0 to len
        invariant v.Valid() && v.data.Length >= len && fresh(v) && fresh(v.data) && v.data[..i] == data[..i]
      {
        v.data[i] := data[i];
      }
      v.len := len;
      return Some(v);
    }
  }

  /** New storage with the first `used` elements of the old. */
  method Grown<T(0)>(old_: array<T>, used: nat, size: nat) returns (r: array<T>)
    requires used <= old_.Length && used <= size
    ensures fresh(r) && r.Length == size && r[..used] == old_[..used]
  {
    r := new T[size];
    for i := 0 to used
      invariant r[..i] == old_[..i]
    {
      r[i] := old_[i];
    }
  }

  lemma TotalFits(n: nat, stride: nat, header: nat)
    requires stride > 0
    ensures n > SIZE_MAX / stride <==> n * stride > SIZE_MAX
  {
    ProductBound(SIZE_MAX, stride, n);
  }
}
