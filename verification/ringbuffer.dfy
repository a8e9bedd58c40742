// The byte ring of the UART driver: a power-of-two buffer with free-running 32-bit indices.
// Ghost counters hold the number of bytes ever written and read; the indices are those
// counters modulo 2^32, and the slot of a byte is its counter modulo the capacity.
module RingBuffers {
  import opened Words

  class RingBuffer {
    var head: u32
    var tail: u32
    var buffer: array<byte>
    var capacity: u32
    ghost var written: nat
    ghost var read: nat

    ghost predicate Valid()
      reads this
    {
      && Capacity(capacity) && buffer.Length == capacity
      && head == Wrap32(written) && tail == Wrap32(read)
      && read <= written <= read + capacity
    }

    /** The unread bytes, oldest first. */
    ghost function Contents(): (s: seq<byte>)
      requires Valid()
      reads this, buffer
      ensures |s| == written - read
    {
      Unroll(buffer[..], read, written - read)
    }

    constructor (storage: array<byte>)
      requires Capacity(storage.Length)
      ensures Valid() && buffer == storage && Contents() == []
      ensures head == 0 && tail == 0 && written == 0 && read == 0
    {
      buffer, capacity := storage, storage.Length;
      head, tail := 0, 0;
      written, read := 0, 0;
    }

    /** rb_init: storage whose size is not a power of two is refused, the object unchanged. */
    method Init(storage: array<byte>)
      requires storage.Length < TWO32
      modifies this
      ensures Capacity(storage.Length) ==> Valid() && buffer == storage && Contents() == []
                                           && head == 0 && tail == 0 && written == 0 && read == 0
      ensures !Capacity(storage.Length) ==> unchanged(this)
    {
      if storage.Length == 0 {
        return;
      }
      PowerOfTwoTest(storage.Length);
      if BitAnd(storage.Length, storage.Length - 1) != 0 {
        return;
      }
      buffer, capacity := storage, storage.Length;
      head, tail := 0, 0;
      written, read := 0, 0;
    }

    /** rb_available, by 32-bit subtraction. */
    method Available() returns (n: u32)
      requires Valid()
      ensures n == |Contents()| == written - read
    {
      Sub32Exact(written, read);
      n := Sub32(head, tail);
    }

    /** rb_free_space, by 32-bit subtraction. */
    method FreeSpace() returns (n: u32)
      requires Valid()
      ensures n == capacity - |Contents()|
    {
      Sub32Exact(written, read);
      n := Sub32(capacity, Sub32(head, tail));
    }

    method IsEmpty() returns (b: bool)
      requires Valid()
      ensures b <==> Contents() == []
    {
      Sub32Exact(written, read);
      b := head == tail;
    }

    method IsFull() returns (b: bool)
      requires Valid()
      ensures b <==> |Contents()| == capacity
    {
      Sub32Exact(written, read);
      b := Sub32(head, tail) >= capacity;
    }

    method Flush()
      requires Valid()
      modifies this`head, this`tail, this`written, this`read
      ensures Valid() && Contents() == [] && head == 0 && tail == 0 && written == 0 && read == 0
    {
      head, tail := 0, 0;
      written, read := 0, 0;
    }

    /** rb_put: accepts as much as fits, in at most two segments. */
    method Put(data: seq<byte>) returns (n: u32)
      requires Valid() && |data| < TWO32
      modifies this`head, this`written, buffer
      ensures Valid() && n == Min(|data|, capacity - |old(Contents())|)
      ensures Contents() == old(Contents()) + data[..n]
      ensures written == old(written) + n
      ensures WrittenFrom(old(buffer[..]), buffer[..], old(head) % capacity, data[..n])
    {
      hide Unroll, Wrap32;
      ghost var before := buffer[..];
      if |data| == 0 {
        assert Contents() == old(Contents()) + data[..0];
        return 0;
      }
      var free := FreeSpace();
      var len := Min(|data|, free);
      if len == 0 {
        assert Contents() == old(Contents()) + data[..0];
        return 0;
      }
      WrapThenSlot(written, capacity);
      var idx := head % capacity;
      var seg1 := capacity - idx;
      if seg1 >= len {
        CopyIn(buffer, idx, data[..len]);
      } else {
        CopyIn(buffer, idx, data[..seg1]);
        CopyIn(buffer, 0, data[seg1..len]);
      }
      assert WrittenFrom(before, buffer[..], idx, data[..len]);
      UnrollWrite(before, buffer[..], read, written - read, data[..len]);
      Add32Exact(written, len);
      head := Add32(head, len);
      written := written + len;
      n := len;
    }

    // The bytes rb_get and rb_peek copy out.
    method CopyOut(len: nat) returns (dst: seq<byte>)
      requires Valid() && len <= |Contents()|
      ensures dst == Contents()[..len]
    {
      hide Unroll, Wrap32;
      WrapThenSlot(read, capacity);
      UnrollSplit(buffer[..], read, written - read, len);
      UnrollSegments(buffer[..], read, len);
      var idx := tail % capacity;
      var seg1 := capacity - idx;
      if seg1 >= len {
        dst := buffer[idx..idx + len];
      } else {
        dst := buffer[idx..idx + seg1] + buffer[0..len - seg1];
      }
    }

    /** rb_get: removes the oldest bytes. */
    method Get(len: u32) returns (dst: seq<byte>)
      requires Valid()
      modifies this`tail, this`read
      ensures Valid() && |dst| == Min(len, |old(Contents())|)
      ensures old(Contents()) == dst + Contents()
      ensures read == old(read) + |dst|
    {
      hide Unroll, Wrap32;
      var avail := Available();
      var n := Min(len, avail);
      if n == 0 {
        assert [] + Contents() == Contents();
        return [];
      }
      dst := CopyOut(n);
      UnrollSplit(buffer[..], read, written - read, n);
      Add32Exact(read, n);
      tail := Add32(tail, n);
      read := read + n;
    }

    /** rb_peek: reads the oldest bytes and leaves them. */
    method Peek(len: u32) returns (dst: seq<byte>)
      requires Valid()
      ensures dst == Contents()[..Min(len, |Contents()|)]
    {
      var avail := Available();
      var n := Min(len, avail);
      if n == 0 {
        return [];
      }
      dst := CopyOut(n);
    }

    /** rb_discard and rb_advance_tail. */
    method Discard(len: u32)
      requires Valid()
      modifies this`tail, this`read
      ensures Valid() && Contents() == old(Contents())[Min(len, |old(Contents())|)..]
      ensures read == old(read) + Min(len, |old(Contents())|)
    {
      hide Unroll, Wrap32;
      var avail := Available();
      var n := Min(len, avail);
      UnrollSplit(buffer[..], read, written - read, n);
      Add32Exact(read, n);
      tail := Add32(tail, n);
      read := read + n;
    }

    /** rb_advance_head: bytes arrived without rb_put; on overrun the oldest ones are given up. */
    method AdvanceHead(len: u32)
      requires Valid()
      modifies this`head, this`tail, this`written, this`read
      ensures Valid() && written == old(written) + len
      ensures read == Max(old(read), written - capacity)
    {
      hide Unroll, Wrap32;
      if len == 0 {
        return;
      }
      var free := FreeSpace();
      if len > free {
        Add32Exact(read, len - free);
        tail := Add32(tail, len - free);
        read := read + (len - free);
      }
      Add32Exact(written, len);
      head := Add32(head, len);
      written := written + len;
    }

    /** rb_contig_read_len: the longest prefix of the contents that does not go round the end. */
    method ContigReadLen() returns (n: u32)
      requires Valid()
      ensures n <= |Contents()| && tail % capacity + n <= capacity
      ensures Contents()[..n] == buffer[tail % capacity..tail % capacity + n]
      ensures n == |Contents()| || tail % capacity + n == capacity
    {
      hide Unroll, Wrap32;
      var avail := Available();
      var seg1 := capacity - tail % capacity;
      n := if avail < seg1 then avail else seg1;
      WrapThenSlot(read, capacity);
      UnrollSplit(buffer[..], read, written - read, n);
      UnrollSegments(buffer[..], read, n);
    }

    /** rb_contig_write_len: how much can be written behind the contents before going round. */
    method ContigWriteLen() returns (n: u32)
      requires Valid()
      ensures n == Min(capacity - |Contents()|, capacity - written % capacity)
    {
      hide Unroll, Wrap32;
      var free := FreeSpace();
      WrapThenSlot(written, capacity);
      var seg1 := capacity - head % capacity;
      n := if free < seg1 then free else seg1;
    }
  }

  /** memcpy into a buffer. */
  method CopyIn(buffer: array<byte>, at: nat, data: seq<byte>)
    requires at + |data| <= buffer.Length
    modifies buffer
    ensures forall s :: 0 <= s < buffer.Length ==>
              buffer[s] == if at <= s < at + |data| then data[s - at] else old(buffer[s])
  {
    forall i | 0 <= i < |data| {
      buffer[at + i] := data[i];
    }
  }
}
