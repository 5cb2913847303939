/** Typed reads and writes over one MySKBuffer. A C++ MyException is the Overflow result. */
module IOBuf {
  import opened Bytes
  import opened SKBuffer

  datatype Result<T> = Ok(value: T) | Overflow

  class MyIOBuf {
    const buffer: MySKBuffer

    ghost predicate Valid()
      reads buffer, buffer.data
    {
      buffer.Valid()
    }

    ghost function Contents(): seq<Byte>
      requires Valid()
      reads buffer, buffer.data
    {
      buffer.Contents()
    }

    /** The block can serve a write of len bytes without running past its end. */
    ghost predicate CanTake(len: nat)
      requires Valid()
      reads buffer, buffer.data
    {
      len < U32 && (buffer.View().MustGrow(len) ==> buffer.View().CanGrow()) && HasRoomFor(buffer.View(), len)
    }

    /** Nothing was read yet and len more bytes fit: the write goes straight behind the earlier ones. */
    ghost predicate FitsAsIs(len: nat)
      requires Valid()
      reads buffer, buffer.data
    {
      buffer.readable == 0 && buffer.writeable + len <= buffer.capacity
    }

    constructor (capacity: nat)
      requires capacity < U32
      ensures Valid() && fresh(buffer) && fresh(buffer.data) && Contents() == []
      ensures buffer.capacity == capacity && buffer.readable == buffer.writeable == 0
    {
      buffer := new MySKBuffer(capacity);
    }

    /** write(pointer, length). */
    method WriteBytes(bytes: seq<Byte>)
      requires Valid() && CanTake(|bytes|)
      modifies buffer, buffer.data
      ensures Valid() && (buffer.data == old(buffer.data) || fresh(buffer.data))
      ensures Step(old(buffer.View()), Write(|bytes|, bytes), buffer.View())
      ensures KeepsContents(old(buffer.View()), |bytes|) ==> Contents() == old(Contents()) + bytes
      ensures old(FitsAsIs(|bytes|)) ==>
                Contents() == old(Contents()) + bytes && buffer.data == old(buffer.data) && buffer.readable == 0 &&
                buffer.capacity == old(buffer.capacity) && buffer.writeable == old(buffer.writeable) + |bytes|
    {
      buffer.Append(bytes);
    }

    /** write of a basic type of n bytes. */
    method WriteLE(v: nat, n: nat)
      requires Valid() && CanTake(n) && v < Pow256(n)
      modifies buffer, buffer.data
      ensures Valid() && (buffer.data == old(buffer.data) || fresh(buffer.data))
      ensures KeepsContents(old(buffer.View()), n) ==> Contents() == old(Contents()) + ToLE(v, n)
      ensures old(FitsAsIs(n)) ==>
                Contents() == old(Contents()) + ToLE(v, n) && buffer.data == old(buffer.data) && buffer.readable == 0 &&
                buffer.capacity == old(buffer.capacity) && buffer.writeable == old(buffer.writeable) + n
    {
      buffer.Append(ToLE(v, n));
    }

    /** read(pointer, length). A short read, and any of an empty buffer, fails and still takes away what was there. */
    method ReadBytes(n: nat) returns (r: Result<seq<Byte>>)
      requires Valid()
      modifies buffer`readable
      ensures Valid()
      ensures if old(Contents()) != [] && n <= |old(Contents())|
              then r == Ok(old(Contents())[..n]) && Contents() == old(Contents())[n..]
              else r == Overflow && Contents() == []
    {
      var ptr, empty, got := buffer.GetReadableAndMove(n);
      if empty || got < n {
        return Overflow;
      }
      r := Ok(buffer.data[ptr..ptr + got]);
    }

    /** read of a basic type of n bytes. */
    method ReadLE(n: nat) returns (r: Result<nat>)
      requires Valid()
      modifies buffer`readable
      ensures Valid()
      ensures if old(Contents()) != [] && n <= |old(Contents())|
              then r.Ok? && (r.value, Contents()) == TakeLE(old(Contents()), n)
              else r == Overflow && Contents() == []
    {
      var s := ReadBytes(n);
      r := if s.Ok? then Ok(FromLE(s.value)) else Overflow;
    }

    /** peek of a basic type of n bytes: the same value, nothing consumed. */
    method PeekLE(n: nat) returns (r: Result<nat>)
      requires Valid()
      ensures r == if Contents() != [] && n <= |Contents()| then Ok(TakeLE(Contents(), n).0) else Overflow
    {
      var ptr, empty, got := buffer.Readable(n);
      if empty || got < n {
        return Overflow;
      }
      r := Ok(FromLE(buffer.data[ptr..ptr + got]));
    }

    /** readable() and getReadableLength() as callers use them: the buffered bytes, not consumed. */
    method Peek() returns (s: seq<Byte>)
      requires Valid()
      ensures s == Contents()
    {
      var n := buffer.GetReadableLength();
      var ptr, empty, got := buffer.Readable(n);
      s := if empty then [] else buffer.data[ptr..ptr + got];
    }
  }

  lemma RoomInNew(b: Block, len: nat)
    requires b.Valid() && b.readable == b.writeable == 0
    requires len < U32 && len <= 2 * b.capacity && (len > b.capacity ==> 2 * b.capacity < U32)
    ensures (b.MustGrow(len) ==> b.CanGrow()) && HasRoomFor(b, len) && KeepsContents(b, len)
  {
    CursorsCopied(b);
  }

  /** create(capacity) and one write: how packets and payloads get buffers of their own. */
  method CreateFilled(capacity: nat, bytes: seq<Byte>) returns (buf: MyIOBuf)
    requires capacity < U32 && |bytes| < U32
    requires |bytes| <= 2 * capacity && (|bytes| > capacity ==> 2 * capacity < U32)
    ensures fresh(buf) && fresh(buf.buffer) && fresh(buf.buffer.data)
    ensures buf.Valid() && buf.Contents() == bytes
  {
    buf := new MyIOBuf(capacity);
    RoomInNew(buf.buffer.View(), |bytes|);
    hide HasRoomFor, KeepsContents, Step;
    buf.WriteBytes(bytes);
  }
}
