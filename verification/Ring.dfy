// The circular byte buffer shared by the ring buffer and the pipe device.

module Rings {
  import opened Bytes

  datatype Ring = Ring(data: Block, readPtr: nat, writePtr: nat)

  ghost predicate Valid(b: Ring) {
    b.readPtr < |b.data| && b.writePtr < |b.data|
  }

  function Unread(b: Ring): int {
    if b.readPtr == b.writePtr then 0
    else if b.readPtr > b.writePtr then (|b.data| - b.readPtr) + b.writePtr
    else b.writePtr - b.readPtr
  }

  function Available(b: Ring): int {
    if b.readPtr == b.writePtr then |b.data| - 1
    else if b.readPtr > b.writePtr then b.readPtr - b.writePtr - 1
    else (|b.data| - b.writePtr) + b.readPtr - 1
  }

  /** The next pointer, wrapped. */
  function Bump(size: nat, ptr: nat): nat {
    if ptr + 1 == size then 0 else ptr + 1
  }

  /** The bytes written and not yet read, oldest first. */
  function Pending(b: Ring): Block
    requires Valid(b)
  {
    if b.readPtr <= b.writePtr then b.data[b.readPtr..b.writePtr] else b.data[b.readPtr..] + b.data[..b.writePtr]
  }

  function Put(b: Ring, x: byte): (r: Ring)
    requires Valid(b)
    ensures Valid(r) && |r.data| == |b.data|
  {
    b.(data := b.data[b.writePtr := x], writePtr := Bump(|b.data|, b.writePtr))
  }

  function Take(b: Ring): (r: Ring)
    requires Valid(b)
    ensures Valid(r) && |r.data| == |b.data|
  {
    b.(readPtr := Bump(|b.data|, b.readPtr))
  }

  /** One slot always stays empty, so the two counts are never confused. */
  lemma CountsAgree(b: Ring)
    requires Valid(b)
    ensures Unread(b) == |Pending(b)| && Unread(b) + Available(b) == |b.data| - 1
    ensures 0 <= Unread(b) && 0 <= Available(b)
  {
  }

  lemma PutAppends(b: Ring, x: byte)
    requires Valid(b) && Available(b) > 0
    ensures Pending(Put(b, x)) == Pending(b) + [x]
  {
    var r := Put(b, x);
    var p, q := Pending(r), Pending(b) + [x];
    assert |p| == |q| by { CountsAgree(b); CountsAgree(r); }
    assert forall k :: 0 <= k < |q| ==> p[k] == q[k];
  }

  lemma TakeRemoves(b: Ring)
    requires Valid(b) && Unread(b) > 0
    ensures |Pending(b)| > 0 && b.data[b.readPtr] == Pending(b)[0] && Pending(Take(b)) == Pending(b)[1..]
  {
    CountsAgree(b);
    CountsAgree(Take(b));
  }

  /** The buffer itself, with the two inner loops that the locks were meant to protect. */
  class RingBuffer {
    const buffer: array<byte>
    var readPtr: nat
    var writePtr: nat

    ghost function Model(): Ring
      reads this, buffer
    {
      Ring(buffer[..], readPtr, writePtr)
    }

    constructor (size: nat)
      requires size > 0
      ensures Valid(Model()) && Pending(Model()) == [] && buffer.Length == size && fresh(buffer)
    {
      buffer := new byte[size];
      readPtr, writePtr := 0, 0;
    }

    method UnreadBytes() returns (n: int)
      requires Valid(Model())
      ensures n == |Pending(Model())|
    {
      CountsAgree(Model());
      if readPtr == writePtr {
        return 0;
      }
      if readPtr > writePtr {
        return (buffer.Length - readPtr) + writePtr;
      } else {
        return writePtr - readPtr;
      }
    }

    method AvailableBytes() returns (n: int)
      requires Valid(Model())
      ensures n == buffer.Length - 1 - |Pending(Model())| && n >= 0
    {
      CountsAgree(Model());
      if readPtr == writePtr {
        return buffer.Length - 1;
      }
      if readPtr > writePtr {
        return readPtr - writePtr - 1;
      } else {
        return (buffer.Length - writePtr) + readPtr - 1;
      }
    }

    /** One byte out, and the read pointer moves on. */
    method TakeByte() returns (x: byte)
      requires Valid(Model()) && |Pending(Model())| > 0
      modifies this`readPtr
      ensures Valid(Model()) && [x] + Pending(Model()) == old(Pending(Model()))
    {
      ghost var b := Model();
      CountsAgree(b);
      TakeRemoves(b);
      x := buffer[readPtr];
      readPtr := readPtr + 1;
      if readPtr == buffer.Length {
        readPtr := 0;
      }
      assert Model() == Take(b);
    }

    /** One byte in, and the write pointer moves on. */
    method PutByte(x: byte)
      requires Valid(Model()) && |Pending(Model())| < buffer.Length - 1
      modifies this`writePtr, buffer
      ensures Valid(Model()) && Pending(Model()) == old(Pending(Model())) + [x]
    {
      ghost var b := Model();
      CountsAgree(b);
      PutAppends(b, x);
      buffer[writePtr] := x;
      writePtr := writePtr + 1;
      if writePtr == buffer.Length {
        writePtr := 0;
      }
      assert Model() == Put(b, x);
    }

    /** The transfer loop of a read: takes what is there, at most size bytes, oldest first. */
    method TransferOut(size: nat) returns (out: Block)
      requires Valid(Model())
      modifies this`readPtr
      ensures Valid(Model())
      ensures out + Pending(Model()) == old(Pending(Model()))
      ensures |out| <= size && (|out| == size || Pending(Model()) == [])
    {
      hide Pending, Valid;
      out := [];
      var n := UnreadBytes();
      while n > 0 && |out| < size
        invariant Valid(Model()) && |out| <= size && n == |Pending(Model())|
        invariant out + Pending(Model()) == old(Pending(Model()))
        decreases size - |out|
      {
        var x := TakeByte();
        out := out + [x];
        n := UnreadBytes();
      }
    }

    /** The transfer loop of a write: appends what fits of src from index `from` on. */
    method TransferIn(src: Block, from: nat) returns (written: nat)
      requires Valid(Model()) && from <= |src|
      modifies this`writePtr, buffer
      ensures Valid(Model()) && from <= written <= |src|
      ensures Pending(Model()) == old(Pending(Model())) + src[from..written]
      ensures written == |src| || |Pending(Model())| == buffer.Length - 1
    {
      hide Pending, Valid;
      written := from;
      var n := AvailableBytes();
      while n > 0 && written < |src|
        invariant Valid(Model()) && from <= written <= |src| && n == buffer.Length - 1 - |Pending(Model())| && n >= 0
        invariant Pending(Model()) == old(Pending(Model())) + src[from..written]
        decreases |src| - written
      {
        PutByte(src[written]);
        written := written + 1;
        n := AvailableBytes();
      }
    }
  }
}
