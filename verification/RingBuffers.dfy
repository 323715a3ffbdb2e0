/** The byte ring behind pipes and UNIX stream sockets. */
module RingBuffers {
  import opened Common

  type Byte = b: nat | b < 256

  /** The offset after x. */
  function Advance(x: nat, capacity: nat): (y: nat)
    requires x < capacity
    ensures y == if x + 1 == capacity then 0 else x + 1
  {
    if x + 1 < capacity then SmallRemainder(x + 1, capacity); (x + 1) % capacity
    else SelfRemainder(capacity); (x + 1) % capacity
  }

  lemma SmallRemainder(a: nat, b: nat)
    requires a < b
    ensures a % b == a
  {
  }

  lemma SelfRemainder(b: nat)
    requires b > 0
    ensures b % b == 0
  {
  }

  /** The place of byte i counted from the read offset r. */
  function Place(r: nat, i: nat, capacity: nat): nat
    requires r < capacity && i < capacity
  {
    if r + i < capacity then r + i else r + i - capacity
  }

  /** The n bytes of storage d from offset r on, around the end. */
  function Ring(d: seq<Byte>, r: nat, n: nat): (s: seq<Byte>)
    requires r < |d| && n <= |d|
    ensures |s| == n
  {
    seq(n, i requires 0 <= i < n => d[Place(r, i, |d|)])
  }

  lemma TakeByte(d: seq<Byte>, r: nat, n: nat)
    requires r < |d| && 0 < n <= |d|
    ensures Ring(d, r, n) == [d[r]] + Ring(d, Advance(r, |d|), n - 1)
  {
    forall i | 0 < i < n
      ensures Place(r, i, |d|) == Place(Advance(r, |d|), i - 1, |d|)
    {
    }
  }

  lemma PutByte(d: seq<Byte>, r: nat, n: nat, x: Byte)
    requires r < |d| && n < |d|
    ensures Ring(d[Place(r, n, |d|) := x], r, n + 1) == Ring(d, r, n) + [x]
  {
    assert forall i | 0 <= i < n :: Place(r, i, |d|) != Place(r, n, |d|);
  }

  class RingBuffer {
    const data: array<Byte>
    var readOffset: nat
    var writeOffset: nat
    var buffered: nat
    ghost var accepted: seq<Byte>   // every byte ever written
    ghost var taken: seq<Byte>      // every byte ever read

    ghost predicate Shape()
      reads this
    {
      && buffered <= data.Length && readOffset < data.Length
      && writeOffset == Wrapped(readOffset, buffered, data.Length)
    }

    /** The bytes waiting to be read, oldest first. */
    ghost function Contents(): (s: seq<Byte>)
      requires Shape()
      reads this, data
      ensures |s| == buffered
    {
      Ring(data[..], readOffset, buffered)
    }

    /** Nothing is lost, duplicated or reordered. */
    ghost predicate Valid()
      reads this, data
    {
      Shape() && accepted == taken + Contents()
    }

    constructor (capacity: nat)
      requires capacity > 0
      ensures Valid() && fresh(data) && data.Length == capacity
      ensures accepted == [] && taken == [] && buffered == 0
    {
      data := new Byte[capacity];
      readOffset, writeOffset, buffered := 0, 0, 0;
      accepted, taken := [], [];
    }

    /** Take the oldest of the n bytes that are there. */
    method Get(ghost n: nat) returns (x: Byte)
      requires readOffset < data.Length && 0 < n <= data.Length
      modifies this`readOffset
      ensures readOffset < data.Length
      ensures Wrapped(readOffset, n - 1, data.Length) == Wrapped(old(readOffset), n, data.Length)
      ensures Ring(data[..], old(readOffset), n) == [x] + Ring(data[..], readOffset, n - 1)
    {
      hide Ring;
      TakeByte(data[..], readOffset, n);
      x := data[readOffset];
      readOffset := Advance(readOffset, data.Length);
    }

    /** Take up to count bytes. */
    method Read(count: nat) returns (bytes: seq<Byte>)
      requires Valid()
      modifies this
      ensures Valid() && accepted == old(accepted) && taken == old(taken) + bytes
      ensures bytes == old(Contents())[..Smaller(count, old(buffered))]
      ensures Contents() == old(Contents())[|bytes|..]
    {
      hide Ring, Wrapped, Place;
      var n := Smaller(count, buffered);
      ghost var contents := Contents();
      bytes := [];
      var i := 0;
      while i < n
        invariant 0 <= i <= n <= buffered <= data.Length && |bytes| == i && readOffset < data.Length
        invariant bytes + Ring(data[..], readOffset, buffered - i) == contents
        invariant buffered == old(buffered) && writeOffset == old(writeOffset)
        invariant Wrapped(readOffset, buffered - i, data.Length) == writeOffset
        invariant accepted == old(accepted) && taken == old(taken)
      {
        var x := Get(buffered - i);
        ghost var rest := Ring(data[..], readOffset, buffered - i - 1);
        assert bytes + ([x] + rest) == (bytes + [x]) + rest;
        bytes := bytes + [x];
        i := i + 1;
      }
      buffered := buffered - n;
      taken := taken + bytes;
      ghost var rest := Ring(data[..], readOffset, buffered);
      assert old(taken) + (bytes + rest) == taken + rest;
      assert contents[..n] == bytes && contents[n..] == rest;
    }

    /** Store one byte after the n that are there. */
    method Put(x: Byte, ghost n: nat)
      requires readOffset < data.Length && n < data.Length && writeOffset == Wrapped(readOffset, n, data.Length)
      modifies this`writeOffset, data
      ensures writeOffset == Wrapped(readOffset, n + 1, data.Length)
      ensures Ring(data[..], readOffset, n + 1) == Ring(old(data[..]), readOffset, n) + [x]
    {
      hide Ring;
      PutByte(data[..], readOffset, n, x);
      ghost var before := data[..];
      data[writeOffset] := x;
      assert data[..] == before[writeOffset := x];
      writeOffset := Advance(writeOffset, data.Length);
    }

    /** Append as many of the bytes as there is room for. */
    method Write(bytes: seq<Byte>) returns (n: nat)
      requires Valid()
      modifies this, data
      ensures n == Smaller(|bytes|, data.Length - old(buffered))
      ensures Valid() && taken == old(taken) && accepted == old(accepted) + bytes[..n]
      ensures Contents() == old(Contents()) + bytes[..n]
    {
      hide Ring, Wrapped, Place;
      n := Smaller(|bytes|, data.Length - buffered);
      ghost var contents := Contents();
      var i := 0;
      while i < n
        invariant 0 <= i <= n && readOffset == old(readOffset) && buffered == old(buffered)
        invariant accepted == old(accepted) && taken == old(taken)
        invariant writeOffset == Wrapped(readOffset, buffered + i, data.Length)
        invariant Ring(data[..], readOffset, buffered + i) == contents + bytes[..i]
      {
        assert bytes[..i + 1] == bytes[..i] + [bytes[i]];
        Put(bytes[i], buffered + i);
        i := i + 1;
      }
      buffered := buffered + n;
      accepted := accepted + bytes[..n];
      assert taken + contents + bytes[..n] == taken + (contents + bytes[..n]);
    }
  }

  /** The write offset when n bytes are buffered from offset r on. */
  function Wrapped(r: nat, n: nat, capacity: nat): nat
    requires r < capacity && n <= capacity
  {
    if n == capacity then r else Place(r, n, capacity)
  }
}
