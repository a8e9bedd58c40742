// Stream and message buffers of the kernel: bytes go round a buffer that always keeps one cell
// free, and a message buffer stores each message behind its length.
module MessageBuffers {
  import opened Words
  import RingBuffers

  // ---- messages as bytes ----

  const LENGTH_BYTES := 4

  /** The length word, least significant byte first. */
  function LengthWord(n: u32): (w: seq<byte>)
    ensures |w| == LENGTH_BYTES
  {
    [n % 256, n / 256 % 256, n / 65536 % 256, n / 0x100_0000]
  }

  function FromWord(w: seq<byte>): int
    requires |w| == LENGTH_BYTES
  {
    w[0] as int + 256 * (w[1] as int) + 65536 * (w[2] as int) + 0x100_0000 * (w[3] as int)
  }

  lemma WordRoundTrip(n: u32)
    ensures FromWord(LengthWord(n)) == n
  {
    var a, b, c := n / 256, n / 65536, n / 0x100_0000;
    assert n == 256 * a + n % 256;
    assert a / 256 == b && a == 256 * b + a % 256;
    assert b / 256 == c && b == 256 * c + b % 256;
  }

  type message = m: seq<byte> | |m| < TWO32 - LENGTH_BYTES

  function Record(m: message): (r: seq<byte>)
    ensures |r| == LENGTH_BYTES + |m|
  {
    LengthWord(|m|) + m
  }

  /** A queue of messages, as the bytes stored for it. */
  function Encoded(ms: seq<message>): seq<byte> {
    if ms == [] then [] else Record(ms[0]) + Encoded(ms[1..])
  }

  lemma {:induction false} EncodedJoin(a: seq<message>, b: seq<message>)
    ensures Encoded(a + b) == Encoded(a) + Encoded(b)
  {
    if a == [] {
      assert a + b == b;
    } else {
      assert (a + b)[1..] == a[1..] + b;
      EncodedJoin(a[1..], b);
    }
  }

  lemma EncodedOne(m: message)
    ensures Encoded([m]) == Record(m)
  {
  }

  /** The first four bytes tell the length of the first message, least significant byte first, and
      the bytes behind them are it. */
  lemma FirstMessage(ms: seq<message>)
    requires ms != []
    ensures |Encoded(ms)| >= LENGTH_BYTES + |ms[0]|
    ensures FromWord(Encoded(ms)[..LENGTH_BYTES]) == |ms[0]|
    ensures var e := Encoded(ms);
            (e[0] as int) + 256 * (e[1] as int) + 65536 * (e[2] as int) + 0x100_0000 * (e[3] as int) == |ms[0]|
    ensures Encoded(ms)[LENGTH_BYTES..LENGTH_BYTES + |ms[0]|] == ms[0]
    ensures Encoded(ms)[LENGTH_BYTES + |ms[0]|..] == Encoded(ms[1..])
  {
    hide LengthWord;
    WordRoundTrip(|ms[0]|);
    assert Encoded(ms) == LengthWord(|ms[0]|) + (ms[0] + Encoded(ms[1..]));
    assert Encoded(ms)[..LENGTH_BYTES] == LengthWord(|ms[0]|);
  }

  /** Reading back what was stored: the bytes determine the messages. */
  lemma {:induction false} EncodedIsInjective(a: seq<message>, b: seq<message>)
    requires Encoded(a) == Encoded(b)
    ensures a == b
  {
    hide Encoded, FromWord;
    EncodedEmpty(a);
    EncodedEmpty(b);
    if a != [] && b != [] {
      FirstMessage(a);
      FirstMessage(b);
      assert a[0] == b[0];
      EncodedIsInjective(a[1..], b[1..]);
      assert a == [a[0]] + a[1..] && b == [b[0]] + b[1..];
    }
  }

  lemma EncodedEmpty(ms: seq<message>)
    ensures Encoded(ms) == [] <==> ms == []
  {
  }

  // ---- counting bytes and spaces ----

  /** The distance from tail to head, going round. */
  function Distance(tail: nat, head: nat, length: nat): int {
    if head >= tail then head - tail else head + length - tail
  }

  /** prvBytesInBuffer, in 32-bit arithmetic. */
  function BytesInBuffer(tail: u32, head: u32, length: u32): u32 {
    var n := Sub32(Add32(length, head), tail);
    if n >= length then Sub32(n, length) else n
  }

  /** xStreamBufferSpacesAvailable, in 32-bit arithmetic. */
  function SpacesAvailable(tail: u32, head: u32, length: u32): u32 {
    var n := Sub32(Sub32(Add32(length, tail), head), 1);
    if n >= length then Sub32(n, length) else n
  }

  /** Both counts are exact, and together one less than the length, wherever the indices stand,
      exactly when the buffer is no longer than half the address range. */
  lemma CountsExactIff(length: u32)
    requires length > 0
    ensures length <= 0x8000_0000 <==>
              forall tail: u32, head: u32 :: tail < length && head < length ==>
                && BytesInBuffer(tail, head, length) == Distance(tail, head, length)
                && SpacesAvailable(tail, head, length) == length - 1 - Distance(tail, head, length)
  {
    hide BytesInBuffer, SpacesAvailable;
    if length <= 0x8000_0000 {
      forall tail: u32, head: u32 | tail < length && head < length
        ensures BytesInBuffer(tail, head, length) == Distance(tail, head, length)
        ensures SpacesAvailable(tail, head, length) == length - 1 - Distance(tail, head, length)
      {
        CountsExact(tail, head, length);
      }
    } else {
      TooLong(length);
    }
  }

  lemma CountsExact(tail: u32, head: u32, length: u32)
    requires tail < length && head < length <= 0x8000_0000
    ensures BytesInBuffer(tail, head, length) == Distance(tail, head, length)
    ensures SpacesAvailable(tail, head, length) == length - 1 - Distance(tail, head, length)
  {
    hide Wrap32;
    WrapSmall(length + head);
    WrapSmall(length + head - tail);
    WrapSmall(length + tail);
    WrapSmall(length + tail - head);
    WrapSmall(length + tail - head - 1);
    if head >= tail {
      WrapSmall(head - tail);
    } else {
      WrapSmall(tail - head - 1);
    }
  }

  // With the tail on the last cell and the head on the first, the sum wraps.
  lemma TooLong(length: u32)
    requires length > 0x8000_0000
    ensures SpacesAvailable(length - 1, 0, length) != length - 1 - Distance(length - 1, 0, length)
  {
    hide Wrap32;
    var n := 2 * length - 1 - TWO32;
    WrapsTo(2 * length - 1, n);
    WrapSmall(n);
    WrapSmall(n - 1);
  }

  lemma WrapsTo(x: nat, r: nat)
    requires x == TWO32 + r && r < TWO32
    ensures Wrap32(x) == r
  {
    DivModUnique(x, TWO32, 1, r);
  }

  // ---- the buffer ----

  class StreamBuffer {
    const buffer: array<byte>
    const isMessage: bool
    var head: u32
    var tail: u32
    // What a message buffer holds.
    ghost var messages: seq<message>

    ghost predicate Valid()
      reads this, buffer
    {
      && 1 < buffer.Length <= 0x8000_0000 && head < buffer.Length && tail < buffer.Length
      && (isMessage ==> Unread() == Encoded(messages) && forall m :: m in messages ==> m != [])
    }

    /** The bytes between tail and head. */
    ghost function Unread(): (s: seq<byte>)
      requires 1 < buffer.Length && head < buffer.Length && tail < buffer.Length
      reads this`head, this`tail, buffer
      ensures |s| == Distance(tail, head, buffer.Length)
    {
      Unroll(buffer[..], tail, Distance(tail, head, buffer.Length))
    }

    /** xStreamBufferGenericCreate: one byte more than asked for is allocated. */
    constructor (size: nat, asMessages: bool)
      requires 0 < size < 0x8000_0000 && (asMessages ==> size > LENGTH_BYTES)
      ensures Valid() && fresh(buffer) && buffer.Length == size + 1 && isMessage == asMessages
      ensures messages == [] && Unread() == []
    {
      buffer, isMessage := new byte[size + 1], asMessages;
      head, tail, messages := 0, 0, [];
    }

    method Bytes() returns (n: u32)
      requires Valid()
      ensures n == |Unread()|
    {
      CountsExact(tail, head, buffer.Length);
      n := BytesInBuffer(tail, head, buffer.Length);
    }

    /** Bytes and spaces always add up to one less than the length. */
    method Spaces() returns (n: u32)
      requires Valid()
      ensures n + |Unread()| == buffer.Length - 1
    {
      CountsExact(tail, head, buffer.Length);
      n := SpacesAvailable(tail, head, buffer.Length);
    }

    /** prvWriteBytesToBuffer: a copy in at most two parts, and the index behind it. */
    method WriteBytes(data: seq<byte>, at: u32) returns (next: u32)
      requires 1 < buffer.Length <= 0x8000_0000 && at < buffer.Length && 0 < |data| < buffer.Length
      modifies buffer
      ensures WrittenFrom(old(buffer[..]), buffer[..], at, data)
      ensures next == SlotAfter(at, |data|, buffer.Length) < buffer.Length
    {
      hide Wrap32;
      WrapSmall(at + |data|);
      var first := Min(buffer.Length - at, |data|);
      RingBuffers.CopyIn(buffer, at, data[..first]);
      if |data| > first {
        RingBuffers.CopyIn(buffer, 0, data[first..]);
      }
      next := Add32(at, |data|);
      if next >= buffer.Length {
        WrapSmall(next - buffer.Length);
        next := Sub32(next, buffer.Length);
      }
    }

    /** prvReadBytesFromBuffer: a copy out in at most two parts, and the index behind it. */
    method ReadBytes(count: u32, at: u32) returns (data: seq<byte>, next: u32)
      requires 1 < buffer.Length <= 0x8000_0000 && at < buffer.Length && 0 < count < buffer.Length
      ensures data == Unroll(buffer[..], at, count)
      ensures next == SlotAfter(at, count, buffer.Length) < buffer.Length
    {
      hide Unroll, Wrap32;
      WrapSmall(at + count);
      DivModUnique(at, buffer.Length, 0, at);
      UnrollSegments(buffer[..], at, count);
      var first := Min(buffer.Length - at, count);
      data := buffer[at..at + first];
      if count > first {
        data := data + buffer[..count - first];
      }
      next := Add32(at, count);
      if next >= buffer.Length {
        WrapSmall(next - buffer.Length);
        next := Sub32(next, buffer.Length);
      }
    }

    /** xStreamBufferSend without waiting, or when it has stopped waiting.  A message goes in whole
        or not at all, an empty one not at all; a stream takes what fits. */
    method Send(data: message) returns (n: nat)
      requires Valid()
      modifies this`head, this`messages, buffer
      ensures Valid() && tail == old(tail)
      ensures isMessage ==>
                && n == (if 4 + |data| + |old(Unread())| < buffer.Length then |data| else 0)
                && messages == if n > 0 then old(messages) + [data] else old(messages)
      ensures !isMessage ==>
                && n == Min(|data|, buffer.Length - 1 - |old(Unread())|)
                && Unread() == old(Unread()) + data[..n]
    {
      var space := Spaces();
      if isMessage {
        n := SendMessage(data, space, |data| + LENGTH_BYTES);
      } else {
        n := SendStream(data, space);
      }
    }

    // prvWriteMessageToBuffer on a message buffer.
    method SendMessage(data: message, space: u32, required: u32) returns (n: nat)
      requires Valid() && isMessage && space + |Unread()| == buffer.Length - 1 && required == |data| + LENGTH_BYTES
      modifies this`head, this`messages, buffer
      ensures Valid() && tail == old(tail)
      ensures n == if required <= space then |data| else 0
      ensures messages == if n > 0 then old(messages) + [data] else old(messages)
    {
      hide Unroll, Encoded, LengthWord, WrittenFrom;
      n := |data|;
      if space >= required {
        ghost var before := buffer[..];
        ghost var count := |Unread()|;
        HeadIs(tail, head, buffer.Length);
        var next := WriteBytes(LengthWord(|data|), head);
        ghost var middle := buffer[..];
        UnrollWrite(before, middle, tail, count, LengthWord(|data|));
        if n != 0 {
          SlotStep(tail, count, LENGTH_BYTES, buffer.Length);
          next := WriteBytes(data, next);
          UnrollWrite(middle, buffer[..], tail, count + LENGTH_BYTES, data);
          EncodedJoin(messages, [data]);
          EncodedOne(data);
          Associative(Encoded(messages), LengthWord(|data|), data);
          head := next;
          messages := messages + [data];
          Landed(tail, count, LENGTH_BYTES + |data|, buffer.Length);
        } else {
          UnrollSplit(middle, tail, count + LENGTH_BYTES, count);
          Prefix(Unroll(before, tail, count), LengthWord(0));
        }
      } else {
        n := 0;
      }
    }

    // prvWriteMessageToBuffer on a stream buffer.
    method SendStream(data: message, space: u32) returns (n: nat)
      requires Valid() && !isMessage && space + |Unread()| == buffer.Length - 1
      modifies this`head, buffer
      ensures Valid() && tail == old(tail) && n == Min(|data|, space)
      ensures Unread() == old(Unread()) + data[..n]
    {
      hide Unroll, WrittenFrom;
      n := Min(|data|, space);
      if n != 0 {
        ghost var before := buffer[..];
        ghost var count := |Unread()|;
        HeadIs(tail, head, buffer.Length);
        head := WriteBytes(data[..n], head);
        UnrollWrite(before, buffer[..], tail, count, data[..n]);
        Landed(tail, count, n, buffer.Length);
      }
    }

    /** xStreamBufferReceive without waiting: the oldest message exactly, if the destination has
        room for it; otherwise nothing is consumed.  A stream gives what there is. */
    method Receive(room: nat) returns (data: seq<byte>)
      requires Valid() && room < TWO32
      modifies this`tail, this`messages
      ensures Valid() && head == old(head)
      ensures isMessage ==>
                if messages == old(messages) then data == [] && (old(messages) == [] || |old(messages)[0]| > room)
                else old(messages) == [data] + messages && data != [] && |data| <= room
      ensures !isMessage ==> |data| == Min(room, |old(Unread())|) && old(Unread()) == data + Unread()
    {
      hide Unroll, Encoded, Distance;
      var available := Bytes();
      data := [];
      if isMessage {
        NoPartialMessage();
        if available > LENGTH_BYTES {
          data := ReceiveMessage(room);
        }
      } else {
        var count := Min(room, available);
        ReadOff(buffer[..], tail, head, count);
        if available > 0 && count != 0 {
          data, tail := ReadBytes(count, tail);
        } else {
          assert Unread() == [] + Unread();
        }
      }
    }

    // A message buffer holds no bytes, or more than a length word.
    lemma NoPartialMessage()
      requires Valid() && isMessage
      ensures messages == [] <==> |Unread()| <= LENGTH_BYTES
    {
      hide Encoded;
      EncodedEmpty(messages);
      if messages != [] {
        assert messages[0] in messages;
        FirstMessage(messages);
      }
    }

    /** xStreamBufferNextMessageLengthBytes. */
    method NextMessageLength() returns (n: int)
      requires Valid()
      ensures n == if isMessage && messages != [] then |messages[0]| else 0
    {
      n := 0;
      if isMessage {
        NoPartialMessage();
        var available := Bytes();
        if available > LENGTH_BYTES {
          hide Encoded, Unroll, FromWord;
          FirstMessage(messages);
          UnrollSplit(buffer[..], tail, available, LENGTH_BYTES);
          var word, _ := ReadBytes(LENGTH_BYTES, tail);
          n := FromWord(word);
        }
      }
    }

    // prvReadMessageFromBuffer on a message buffer that holds a message.
    method ReceiveMessage(room: nat) returns (data: seq<byte>)
      requires Valid() && isMessage && messages != [] && room < TWO32
      modifies this`tail, this`messages
      ensures Valid() && head == old(head)
      ensures if |old(messages)[0]| > room then data == [] && messages == old(messages)
              else old(messages) == [data] + messages && data != []
    {
      hide Encoded, Unroll, FromWord, Distance, SlotAfter;
      ghost var cells, first := buffer[..], messages[0];
      FirstMessage(messages);
      assert first in messages && messages == [first] + messages[1..];
      var available := Bytes();
      ReadOff(cells, tail, head, LENGTH_BYTES);
      var word, next := ReadBytes(LENGTH_BYTES, tail);
      var n := FromWord(word);
      available := available - LENGTH_BYTES;
      if n > room {
        n := 0;
      }
      var count := Min(n, available);
      data := [];
      if count != 0 {
        ReadOff(cells, next, head, count);
        data, tail := ReadBytes(count, next);
        SliceOfSlice(Encoded(messages), LENGTH_BYTES, count);
        assert data == first;
        assert forall m :: m in messages[1..] ==> m in messages;
        messages := messages[1..];
      }
    }
  }

  // ---- going round ----

  lemma HeadIs(tail: nat, head: nat, length: nat)
    requires tail < length && head < length
    ensures (tail + Distance(tail, head, length)) % length == head
  {
    if head >= tail {
      DivModUnique(head, length, 0, head);
    } else {
      DivModUnique(head + length, length, 1, head);
    }
  }

  lemma SlotStep(tail: nat, count: nat, n: nat, length: nat)
    requires tail < length && n < length
    ensures 0 <= (tail + count) % length < length
    ensures SlotAfter((tail + count) % length, n, length) == (tail + count + n) % length
  {
    SlotAfterIs(tail + count, n, length);
  }

  // The head n places on, with the tail where it was.
  lemma Landed(tail: nat, count: nat, n: nat, length: nat)
    requires tail < length && count + n < length
    ensures 0 <= (tail + count + n) % length < length
    ensures Distance(tail, (tail + count + n) % length, length) == count + n
  {
    SlotOf(tail, tail + count + n, length);
    DivModUnique(tail, length, 0, tail);
  }

  // The tail n places on, with the head where it was.
  lemma Consumed(tail: nat, head: nat, n: nat, length: nat)
    requires tail < length && head < length && n <= Distance(tail, head, length)
    ensures Distance(SlotAfter(tail, n, length), head, length) == Distance(tail, head, length) - n
  {
  }

  lemma UnrollRound(cells: seq<byte>, start: nat, count: nat)
    requires |cells| > 0
    ensures 0 <= start % |cells|
    ensures Unroll(cells, start % |cells|, count) == Unroll(cells, start, count)
  {
    forall i | 0 <= i < count
      ensures Unroll(cells, start % |cells|, count)[i] == Unroll(cells, start, count)[i]
    {
      RoundIndex(start, i, |cells|);
    }
  }

  lemma RoundIndex(start: nat, i: nat, c: nat)
    requires c > 0
    ensures 0 <= start % c < c && (start % c + i) % c == (start + i) % c
  {
    var q, r := start / c, start % c + i;
    assert start + i == q * c + r;
    var q2 := r / c;
    assert r == q2 * c + r % c;
    assert (q + q2) * c == q * c + q2 * c;
    DivModUnique(start + i, c, q + q2, r % c);
  }

  // Reading n of the bytes between tail and head leaves the others.
  lemma ReadOff(cells: seq<byte>, tail: nat, head: nat, n: nat)
    requires tail < |cells| && head < |cells| && n <= Distance(tail, head, |cells|)
    ensures var unread, next := Unroll(cells, tail, Distance(tail, head, |cells|)), SlotAfter(tail, n, |cells|);
            && 0 <= next < |cells| && 0 <= Distance(next, head, |cells|) == |unread| - n && |unread| < |cells|
            && unread[..n] == Unroll(cells, tail, n)
            && unread[n..] == Unroll(cells, next, Distance(next, head, |cells|))
  {
    hide Unroll;
    var c := |cells|;
    UnrollSplit(cells, tail, Distance(tail, head, c), n);
    SlotStep(tail, 0, n, c);
    DivModUnique(tail, c, 0, tail);
    Consumed(tail, head, n, c);
    UnrollRound(cells, tail + n, Distance(tail, head, c) - n);
  }

  lemma Associative(a: seq<byte>, b: seq<byte>, c: seq<byte>)
    ensures a + b + c == a + (b + c)
  {
  }

  lemma SliceOfSlice(s: seq<byte>, a: nat, n: nat)
    requires a + n <= |s|
    ensures s[a..][..n] == s[a..a + n] && s[a..][n..] == s[a + n..]
  {
  }

  lemma Prefix(a: seq<byte>, b: seq<byte>)
    ensures (a + b)[..|a|] == a
  {
  }
}
