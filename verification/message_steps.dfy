// A message buffer between one writer and one reader, without a lock.  The writer copies the
// length word and then the message byte by byte before it publishes the head; the reader copies
// the length word, decides, copies the message and publishes the tail.  Either side may move
// between any two of these steps.
module MessageSteps {
  import opened Words
  import opened MessageBuffers

  datatype Writer = WriteIdle | Writing(m: message, written: nat)

  datatype Reader = ReadIdle | Reading(room: nat, available: nat, copied: seq<byte>)

  /** sent and received are the histories of published and of delivered messages. */
  datatype Buffer = Buffer(cells: seq<byte>, head: u32, tail: u32, writer: Writer, reader: Reader,
                           sent: seq<message>, received: seq<message>)

  datatype Event = SendStart(m: message) | WriteByte | SendEnd | ReceiveStart(room: nat) | ReadByte | ReceiveEnd

  /** How many bytes the reader wants in all, as far as it can tell: the length word, and behind
      it the message if the destination has room. */
  function Wanted(r: Reader): int
    requires r.Reading?
  {
    if |r.copied| < LENGTH_BYTES then LENGTH_BYTES
    else
      var n := FromWord(r.copied[..LENGTH_BYTES]);
      LENGTH_BYTES + (if n > r.room then 0 else Min(n, r.available - LENGTH_BYTES))
  }

  ghost predicate Bounded(b: Buffer) {
    1 < |b.cells| <= 0x8000_0000 && b.head < |b.cells| && b.tail < |b.cells|
  }

  /** One step of either side; an event that does not apply changes nothing. */
  function Step(b: Buffer, e: Event): Buffer
    requires Bounded(b)
  {
    var c := |b.cells|;
    match e
    case SendStart(m) =>
      if b.writer.WriteIdle? && LENGTH_BYTES + |m| <= SpacesAvailable(b.tail, b.head, c)
      then b.(writer := Writing(m, 0)) else b
    case WriteByte =>
      if b.writer.Writing? && b.writer.written < |Record(b.writer.m)|
         && 0 <= SlotAfter(b.head, b.writer.written, c) < c
      then
        var k := b.writer.written;
        b.(cells := b.cells[SlotAfter(b.head, k, c) := Record(b.writer.m)[k]], writer := b.writer.(written := k + 1))
      else b
    case SendEnd =>
      if b.writer.Writing? && b.writer.written == |Record(b.writer.m)| then
        if b.writer.m == [] || !(0 <= SlotAfter(b.head, b.writer.written, c) < c) then b.(writer := WriteIdle)
        else b.(writer := WriteIdle, head := SlotAfter(b.head, b.writer.written, c), sent := b.sent + [b.writer.m])
      else b
    case ReceiveStart(room) =>
      if b.reader.ReadIdle? && BytesInBuffer(b.tail, b.head, c) > LENGTH_BYTES
      then b.(reader := Reading(room, BytesInBuffer(b.tail, b.head, c), [])) else b
    case ReadByte =>
      if b.reader.Reading? && |b.reader.copied| < Wanted(b.reader) && 0 <= SlotAfter(b.tail, |b.reader.copied|, c) < c
      then
        b.(reader := b.reader.(copied := b.reader.copied + [b.cells[SlotAfter(b.tail, |b.reader.copied|, c)]]))
      else b
    case ReceiveEnd =>
      if b.reader.Reading? && |b.reader.copied| >= LENGTH_BYTES && |b.reader.copied| == Wanted(b.reader) then
        var n := |b.reader.copied|;
        if n == LENGTH_BYTES || n >= TWO32 || !(0 <= SlotAfter(b.tail, n, c) < c) then b.(reader := ReadIdle)
        else b.(reader := ReadIdle, tail := SlotAfter(b.tail, n, c),
                received := b.received + [b.reader.copied[LENGTH_BYTES..]])
      else b
  }

  lemma StepKeepsBounded(b: Buffer, e: Event)
    requires Bounded(b)
    ensures Bounded(Step(b, e)) && |Step(b, e).cells| == |b.cells|
  {
    hide Wanted, Record, FromWord, SpacesAvailable, BytesInBuffer;
  }

  function Run(b: Buffer, events: seq<Event>): Buffer
    requires Bounded(b)
    decreases |events|
  {
    if events == [] then b else StepKeepsBounded(b, events[0]); Run(Step(b, events[0]), events[1..])
  }

  function Empty(cells: seq<byte>): Buffer { Buffer(cells, 0, 0, WriteIdle, ReadIdle, [], []) }

  // All bytes ever published, and those of the send in progress that are already written.
  ghost function Visible(b: Buffer): seq<byte> {
    if b.writer.Writing? && b.writer.written <= |Record(b.writer.m)|
    then Encoded(b.sent) + Record(b.writer.m)[..b.writer.written] else Encoded(b.sent)
  }

  ghost predicate CellsHold(b: Buffer) {
    |b.cells| > 0 && forall k :: |Encoded(b.received)| <= k < |Visible(b)| ==> b.cells[k % |b.cells|] == Visible(b)[k]
  }

  ghost predicate Indexed(b: Buffer) {
    var c, w, t := |b.cells|, |Encoded(b.sent)|, |Encoded(b.received)|;
    && 1 < c <= 0x8000_0000
    && b.head == w % c && b.tail == t % c && t <= w < t + c
    && |b.received| <= |b.sent| && b.received == b.sent[..|b.received|]
    && (forall m :: m in b.sent ==> m != [])
  }

  ghost predicate WriterSafe(b: Buffer) {
    b.writer.Writing? ==>
      && b.writer.written <= |Record(b.writer.m)|
      && |Encoded(b.sent)| + |Record(b.writer.m)| < |Encoded(b.received)| + |b.cells|
  }

  // The reader has copied a prefix of the oldest message's record, and counted all of it.
  ghost predicate ReaderSafe(b: Buffer) {
    b.reader.Reading? ==>
      && |b.received| < |b.sent|
      && var record := Record(b.sent[|b.received|]);
         && b.reader.copied <= record && |record| <= b.reader.available
         && (|b.reader.copied| > LENGTH_BYTES ==> |record| - LENGTH_BYTES <= b.reader.room)
  }

  ghost predicate Safe(b: Buffer) {
    Indexed(b) && CellsHold(b) && WriterSafe(b) && ReaderSafe(b)
  }

  // The bytes not yet delivered start with the record of the oldest message.
  lemma OldestRecord(b: Buffer)
    requires Indexed(b)
    ensures Encoded(b.sent) == Encoded(b.received) + Encoded(b.sent[|b.received|..])
    ensures |b.received| < |b.sent| ==>
              && |Encoded(b.received)| + |Record(b.sent[|b.received|])| <= |Encoded(b.sent)|
              && Record(b.sent[|b.received|]) ==
                   Encoded(b.sent)[|Encoded(b.received)|..][..|Record(b.sent[|b.received|])|]
              && b.sent[|b.received|] != []
    ensures |b.received| == |b.sent| <==> |Encoded(b.sent)| == |Encoded(b.received)|
  {
    hide Record;
    var r := |b.received|;
    assert b.sent == b.sent[..r] + b.sent[r..];
    EncodedJoin(b.sent[..r], b.sent[r..]);
    EncodedEmpty(b.sent[r..]);
    if r < |b.sent| {
      assert b.sent[r..][0] == b.sent[r];
      assert b.sent[r] in b.sent;
    }
  }

  lemma CountsAre(b: Buffer)
    requires Indexed(b)
    ensures b.head < |b.cells| && b.tail < |b.cells|
    ensures BytesInBuffer(b.tail, b.head, |b.cells|) == |Encoded(b.sent)| - |Encoded(b.received)|
    ensures SpacesAvailable(b.tail, b.head, |b.cells|) == |b.cells| - 1 - (|Encoded(b.sent)| - |Encoded(b.received)|)
  {
    hide BytesInBuffer, SpacesAvailable;
    var c, w, t := |b.cells|, |Encoded(b.sent)|, |Encoded(b.received)|;
    SlotOf(t, w, c);
    CountsExact(b.tail, b.head, c);
  }

  lemma StartKeepsSafe(b: Buffer, e: Event)
    requires Safe(b) && Bounded(b) && (e.SendStart? || e.ReceiveStart?)
    ensures Safe(Step(b, e))
  {
    hide BytesInBuffer, SpacesAvailable, Encoded;
    CountsAre(b);
    OldestRecord(b);
    assert Visible(Step(b, e)) == Visible(b);
  }

  lemma WriteKeepsSafe(b: Buffer)
    requires Safe(b) && Bounded(b)
    ensures Safe(Step(b, WriteByte))
  {
    hide Encoded, Record;
    var n := Step(b, WriteByte);
    if b.writer.Writing? && b.writer.written < |Record(b.writer.m)| {
      var c, w, k := |b.cells|, |Encoded(b.sent)|, b.writer.written;
      SlotAfterIs(w, k, c);
      assert Visible(n) == Visible(b) + [Record(b.writer.m)[k]];
      forall j | |Encoded(b.received)| <= j < |Visible(n)|
        ensures n.cells[j % c] == Visible(n)[j]
      {
        if j < w + k {
          SlotsDiffer(j, w + k, c);
        }
      }
    }
  }

  lemma SendEndKeepsSafe(b: Buffer)
    requires Safe(b) && Bounded(b)
    ensures Safe(Step(b, SendEnd))
  {
    hide Encoded, Record;
    var n := Step(b, SendEnd);
    if b.writer.Writing? && b.writer.written == |Record(b.writer.m)| {
      SlotAfterIs(|Encoded(b.sent)|, b.writer.written, |b.cells|);
      EncodedJoin(b.sent, [b.writer.m]);
      EncodedOne(b.writer.m);
      assert Record(b.writer.m)[..b.writer.written] == Record(b.writer.m);
      if b.writer.m == [] {
        assert Visible(b)[..|Visible(n)|] == Visible(n);
      } else {
        assert Visible(n) == Visible(b);
        assert n.sent[..|b.received|] == b.sent[..|b.received|];
      }
    }
  }

  lemma ReadKeepsSafe(b: Buffer)
    requires Safe(b) && Bounded(b)
    ensures Safe(Step(b, ReadByte))
  {
    hide Encoded, FromWord, LengthWord;
    if b.reader.Reading? {
      var c, t, k := |b.cells|, |Encoded(b.received)|, |b.reader.copied|;
      var m := b.sent[|b.received|];
      OldestRecord(b);
      KnownLength(m, b.reader.copied);
      if k < Wanted(b.reader) {
        SlotAfterIs(t, k, c);
        assert Visible(b)[t + k] == Encoded(b.sent)[t + k] == Record(m)[k];
        assert Record(m)[..k + 1] == Record(m)[..k] + [Record(m)[k]];
      }
      assert Visible(Step(b, ReadByte)) == Visible(b);
    }
  }

  lemma KnownLength(m: message, copied: seq<byte>)
    requires copied <= Record(m)
    ensures |copied| >= LENGTH_BYTES ==> FromWord(copied[..LENGTH_BYTES]) == |m|
  {
    hide FromWord, LengthWord;
    WordRoundTrip(|m|);
    if |copied| >= LENGTH_BYTES {
      assert copied[..LENGTH_BYTES] == Record(m)[..LENGTH_BYTES] == LengthWord(|m|);
    }
  }

  /** What the reader delivers at its end is the oldest message, whole. */
  lemma ReceiveEndKeepsSafe(b: Buffer)
    requires Safe(b) && Bounded(b)
    ensures Safe(Step(b, ReceiveEnd))
  {
    hide Encoded, FromWord, LengthWord;
    var n := Step(b, ReceiveEnd);
    if b.reader.Reading? && |b.reader.copied| >= LENGTH_BYTES && |b.reader.copied| == Wanted(b.reader) {
      var r, t := |b.received|, |Encoded(b.received)|;
      var m := b.sent[r];
      OldestRecord(b);
      KnownLength(m, b.reader.copied);
      if |b.reader.copied| > LENGTH_BYTES {
        assert b.reader.copied == Record(m);
        assert b.reader.copied[LENGTH_BYTES..] == m;
        SlotAfterIs(t, |Record(m)|, |b.cells|);
        EncodedJoin(b.received, [m]);
        EncodedOne(m);
        assert b.sent[..r + 1] == b.sent[..r] + [m];
      }
      assert Visible(n) == Visible(b);
    }
  }

  lemma StepKeepsSafe(b: Buffer, e: Event)
    requires Safe(b) && Bounded(b)
    ensures Safe(Step(b, e))
  {
    hide Step, Safe, Bounded;
    match e
    case SendStart(_) => StartKeepsSafe(b, e);
    case WriteByte => WriteKeepsSafe(b);
    case SendEnd => SendEndKeepsSafe(b);
    case ReceiveStart(_) => StartKeepsSafe(b, e);
    case ReadByte => ReadKeepsSafe(b);
    case ReceiveEnd => ReceiveEndKeepsSafe(b);
  }

  lemma {:induction false} RunKeepsSafe(b: Buffer, events: seq<Event>)
    requires Safe(b) && Bounded(b)
    ensures Safe(Run(b, events)) && Bounded(Run(b, events)) && |Run(b, events).cells| == |b.cells|
    decreases |events|
  {
    hide Step, Safe, Bounded;
    if events != [] {
      StepKeepsSafe(b, events[0]);
      StepKeepsBounded(b, events[0]);
      RunKeepsSafe(Step(b, events[0]), events[1..]);
    }
  }

  lemma UnreadIs(b: Buffer)
    requires Safe(b)
    ensures b.tail < |b.cells| && |Encoded(b.sent)| - |Encoded(b.received)| == |Encoded(b.sent[|b.received|..])|
    ensures Unroll(b.cells, b.tail, |Encoded(b.sent[|b.received|..])|) == Encoded(b.sent[|b.received|..])
  {
    hide Encoded, Record;
    OldestRecord(b);
    var t, n := |Encoded(b.received)|, |Encoded(b.sent[|b.received|..])|;
    UnrollRound(b.cells, t, n);
    forall i | 0 <= i < n
      ensures Unroll(b.cells, t, n)[i] == Encoded(b.sent[|b.received|..])[i]
    {
      assert Visible(b)[t + i] == Encoded(b.sent)[t + i];
    }
  }

  /** Under every interleaving of writer and reader: the messages received are the first ones of
      those sent, each whole and in order; the bytes in the buffer are exactly the records of the
      others, never part of one; and bytes and spaces add up to one less than the length. */
  lemma EveryInterleavingKeepsMessages(cells: seq<byte>, events: seq<Event>)
    requires 1 < |cells| <= 0x8000_0000
    ensures var b := Run(Empty(cells), events);
            && Bounded(b) && |b.cells| == |cells|
            && b.received <= b.sent
            && BytesInBuffer(b.tail, b.head, |cells|) == |Encoded(b.sent[|b.received|..])|
            && SpacesAvailable(b.tail, b.head, |cells|) + BytesInBuffer(b.tail, b.head, |cells|) == |cells| - 1
            && Unroll(b.cells, b.tail, BytesInBuffer(b.tail, b.head, |cells|)) == Encoded(b.sent[|b.received|..])
  {
    hide Step, BytesInBuffer, SpacesAvailable, Unroll, CellsHold, Encoded;
    EmptyIsSafe(cells);
    RunKeepsSafe(Empty(cells), events);
    var b := Run(Empty(cells), events);
    CountsAre(b);
    UnreadIs(b);
  }

  lemma EmptyIsSafe(cells: seq<byte>)
    requires 1 < |cells| <= 0x8000_0000
    ensures Safe(Empty(cells)) && Bounded(Empty(cells))
  {
  }

  /** A send that has found space can always be finished, and then the message is there. */
  lemma {:induction false} SendCanFinish(b: Buffer) returns (events: seq<Event>)
    requires Safe(b) && Bounded(b) && b.writer.Writing? && b.writer.m != []
    ensures Run(b, events).sent == b.sent + [b.writer.m] && Run(b, events).received == b.received
    decreases |Record(b.writer.m)| - b.writer.written
  {
    hide Encoded, Record;
    var e := if b.writer.written == |Record(b.writer.m)| then SendEnd else WriteByte;
    SlotAfterIs(|Encoded(b.sent)|, b.writer.written, |b.cells|);
    var n := Step(b, e);
    StepKeepsSafe(b, e);
    StepKeepsBounded(b, e);
    if e.SendEnd? {
      events := [];
    } else {
      events := SendCanFinish(n);
    }
    assert ([e] + events)[1..] == events;
    events := [e] + events;
  }

  /** A receive that has seen a message can always be finished: with room for it the oldest
      message is delivered, and otherwise nothing is consumed. */
  lemma {:induction false} ReceiveCanFinish(b: Buffer) returns (events: seq<Event>)
    requires Safe(b) && Bounded(b) && b.reader.Reading? && |b.received| < |b.sent|
    ensures Run(b, events).sent == b.sent && Run(b, events).reader == ReadIdle
    ensures Run(b, events).received ==
              if |b.sent[|b.received|]| <= b.reader.room then b.received + [b.sent[|b.received|]] else b.received
    decreases |Record(b.sent[|b.received|])| - |b.reader.copied|
  {
    hide Encoded, FromWord, LengthWord;
    var m := b.sent[|b.received|];
    OldestRecord(b);
    KnownLength(m, b.reader.copied);
    SlotAfterIs(|Encoded(b.received)|, |b.reader.copied|, |b.cells|);
    var e := if |b.reader.copied| == Wanted(b.reader) then ReceiveEnd else ReadByte;
    var n := Step(b, e);
    StepKeepsSafe(b, e);
    StepKeepsBounded(b, e);
    if e.ReceiveEnd? {
      assert b.reader.copied == Record(m)[..|b.reader.copied|];
      events := [];
    } else {
      events := ReceiveCanFinish(n);
    }
    assert ([e] + events)[1..] == events;
    events := [e] + events;
  }

  // ---- one side alone ----

  function Repeated(b: Buffer, e: Event, n: nat): (after: Buffer)
    requires Bounded(b)
    ensures Bounded(after) && |after.cells| == |b.cells|
    decreases n
  {
    if n == 0 then b else StepKeepsBounded(b, e); Repeated(Step(b, e), e, n - 1)
  }

  /** A send and a receive with nothing in between. */
  function SendAlone(b: Buffer, m: message): Buffer
    requires Bounded(b)
  {
    StepKeepsBounded(b, SendStart(m));
    Step(Repeated(Step(b, SendStart(m)), WriteByte, |Record(m)|), SendEnd)
  }

  function ReceiveAlone(b: Buffer, room: nat): Buffer
    requires Bounded(b)
  {
    StepKeepsBounded(b, ReceiveStart(room));
    Step(Repeated(Step(b, ReceiveStart(room)), ReadByte, LENGTH_BYTES + room), ReceiveEnd)
  }

  lemma {:induction false} NothingToCopy(b: Buffer, e: Event, n: nat)
    requires Bounded(b) && Step(b, e) == b
    ensures Repeated(b, e, n) == b
    decreases n
  {
    hide Step, Bounded;
    if n > 0 {
      NothingToCopy(b, e, n - 1);
    }
  }

  lemma {:induction false} SendCopies(b: Buffer, n: nat)
    requires Safe(b) && Bounded(b) && b.writer.Writing? && n == |Record(b.writer.m)| - b.writer.written
    ensures var after := Repeated(b, WriteByte, n);
            && Safe(after)
            && after == b.(cells := after.cells, writer := Writing(b.writer.m, |Record(b.writer.m)|))
    decreases n
  {
    hide Encoded, Record;
    if n > 0 {
      SlotAfterIs(|Encoded(b.sent)|, b.writer.written, |b.cells|);
      StepKeepsSafe(b, WriteByte);
      StepKeepsBounded(b, WriteByte);
      SendCopies(Step(b, WriteByte), n - 1);
    }
  }

  /** A send that is not interrupted has the effect of xStreamBufferSend: the message is there,
      whole, exactly if it is not empty and fits with its length word in front. */
  lemma SendAloneIs(b: Buffer, m: message)
    requires Safe(b) && Bounded(b) && b.writer.WriteIdle?
    ensures var fits := 4 + |m| + |Encoded(b.sent)| - |Encoded(b.received)| < |b.cells|;
            var after := SendAlone(b, m);
            && Safe(after) && |after.cells| == |b.cells|
            && after == b.(cells := after.cells, head := after.head,
                           sent := if fits && m != [] then b.sent + [m] else b.sent)
            && (!fits ==> after == b) && (m == [] ==> after.head == b.head)
  {
    hide Encoded, Record, SpacesAvailable, BytesInBuffer;
    CountsAre(b);
    var started := Step(b, SendStart(m));
    StepKeepsSafe(b, SendStart(m));
    StepKeepsBounded(b, SendStart(m));
    if started.writer.Writing? {
      SendCopies(started, |Record(m)|);
      var copied := Repeated(started, WriteByte, |Record(m)|);
      SlotAfterIs(|Encoded(b.sent)|, |Record(m)|, |b.cells|);
      StepKeepsSafe(copied, SendEnd);
    } else {
      NothingToCopy(started, WriteByte, |Record(m)|);
    }
  }

  lemma WantedIs(b: Buffer)
    requires Safe(b) && b.reader.Reading? && |b.received| < |b.sent|
    ensures var m := b.sent[|b.received|];
            Wanted(b.reader) ==
              if |b.reader.copied| >= LENGTH_BYTES && |m| <= b.reader.room then |Record(m)| else LENGTH_BYTES
    ensures |b.reader.copied| <= Wanted(b.reader)
  {
    hide Encoded, FromWord, LengthWord, CellsHold, Indexed;
    KnownLength(b.sent[|b.received|], b.reader.copied);
  }

  lemma ReadOne(b: Buffer)
    requires Safe(b) && Bounded(b) && b.reader.Reading? && |b.reader.copied| < Wanted(b.reader)
    ensures var after := Step(b, ReadByte);
            after.reader.Reading? && |after.reader.copied| == |b.reader.copied| + 1
            && after == b.(reader := b.reader.(copied := after.reader.copied))
  {
    hide Encoded, Record, Wanted, CellsHold;
    WantedBelow(b);
    SlotAfterIs(|Encoded(b.received)|, |b.reader.copied|, |b.cells|);
  }

  lemma WantedBelow(b: Buffer)
    requires Safe(b) && b.reader.Reading?
    ensures Wanted(b.reader) < |b.cells|
  {
    hide Encoded, Record, CellsHold, WriterSafe;
    OldestRecord(b);
    WantedIs(b);
  }

  lemma {:induction false} ReceiveCopies(b: Buffer, n: nat)
    requires Safe(b) && Bounded(b) && b.reader.Reading? && |b.received| < |b.sent|
    requires n >= LENGTH_BYTES + b.reader.room - |b.reader.copied|
    ensures var after, m := Repeated(b, ReadByte, n), b.sent[|b.received|];
            && Safe(after) && after.reader.Reading?
            && after == b.(reader := b.reader.(copied := after.reader.copied))
            && |after.reader.copied| == Wanted(after.reader) >= LENGTH_BYTES
            && |after.reader.copied| == (if |m| <= b.reader.room then |Record(m)| else LENGTH_BYTES)
    decreases n
  {
    hide Step, Safe, Bounded, Wanted;
    WantedIs(b);
    if |b.reader.copied| == Wanted(b.reader) {
      AllRead(b);
      NothingToCopy(b, ReadByte, n);
    } else {
      ReadOne(b);
      StepKeepsSafe(b, ReadByte);
      StepKeepsBounded(b, ReadByte);
      ReceiveCopies(Step(b, ReadByte), n - 1);
    }
  }

  lemma AllRead(b: Buffer)
    requires Bounded(b) && b.reader.Reading? && |b.reader.copied| == Wanted(b.reader)
    ensures Step(b, ReadByte) == b
  {
    hide Wanted;
  }

  lemma ReceiveEnds(b: Buffer)
    requires Safe(b) && Bounded(b) && b.reader.Reading? && |b.received| < |b.sent|
    requires |b.reader.copied| == Wanted(b.reader) >= LENGTH_BYTES
    ensures var after := Step(b, ReceiveEnd);
            && Safe(after)
            && (|b.reader.copied| == LENGTH_BYTES ==> after == b.(reader := ReadIdle))
            && (|b.reader.copied| > LENGTH_BYTES ==>
                  after == b.(reader := ReadIdle, tail := after.tail, received := b.sent[..|b.received| + 1]))
  {
    hide Encoded, Record, FromWord, CellsHold;
    ReceiveEndKeepsSafe(b);
    WantedBelow(b);
    SlotAfterIs(|Encoded(b.received)|, |b.reader.copied|, |b.cells|);
  }

  /** A receive that is not interrupted has the effect of xStreamBufferReceive: the oldest message
      is delivered, whole, exactly if there is one and it fits into the destination; otherwise
      nothing is consumed. */
  lemma ReceiveAloneIs(b: Buffer, room: nat)
    requires Safe(b) && Bounded(b) && b.reader.ReadIdle?
    ensures var taken, after := |b.received| < |b.sent| && |b.sent[|b.received|]| <= room, ReceiveAlone(b, room);
            && Safe(after)
            && after == b.(tail := after.tail, received := if taken then b.sent[..|b.received| + 1] else b.received)
            && (!taken ==> after == b)
  {
    hide Encoded, SpacesAvailable, BytesInBuffer, FromWord, Safe, Wanted, Bounded, Step, LengthWord;
    ReceiveBegins(b, room);
    var started := Step(b, ReceiveStart(room));
    StepKeepsSafe(b, ReceiveStart(room));
    StepKeepsBounded(b, ReceiveStart(room));
    if started.reader.Reading? {
      ReceiveCopies(started, LENGTH_BYTES + room);
      ReceiveEnds(Repeated(started, ReadByte, LENGTH_BYTES + room));
      assert |b.sent[|b.received|]| > 0;
    } else {
      NotReceiving(b);
      NothingToCopy(started, ReadByte, LENGTH_BYTES + room);
    }
  }

  lemma ReceiveBegins(b: Buffer, room: nat)
    requires Safe(b) && Bounded(b) && b.reader.ReadIdle?
    ensures |b.received| <= |b.sent|
    ensures |b.received| == |b.sent| ==> Step(b, ReceiveStart(room)) == b
    ensures |b.received| < |b.sent| ==>
              && b.sent[|b.received|] != []
              && Step(b, ReceiveStart(room)) ==
                   b.(reader := Reading(room, BytesInBuffer(b.tail, b.head, |b.cells|), []))
  {
    hide Encoded, SpacesAvailable, BytesInBuffer, CellsHold;
    CountsAre(b);
    OldestRecord(b);
  }

  lemma NotReceiving(b: Buffer)
    requires Bounded(b) && b.reader.ReadIdle?
    ensures Step(b, ReadByte) == b && Step(b, ReceiveEnd) == b
  {
    hide Wanted;
  }

  // ---- the buffer object is this buffer ----

  /** The object holds the messages not yet received, between the same indices. */
  ghost predicate Same(buffer: StreamBuffer, b: Buffer)
    reads buffer, buffer.buffer
  {
    && buffer.Valid() && buffer.isMessage && buffer.buffer.Length == |b.cells|
    && buffer.head == b.head && buffer.tail == b.tail
    && |b.received| <= |b.sent| && buffer.messages == b.sent[|b.received|..]
  }

  // The indices are as far apart as the bytes between them say.
  lemma SameIndices(buffer: StreamBuffer, b: Buffer)
    requires Safe(b) && buffer.Valid() && buffer.isMessage && buffer.buffer.Length == |b.cells|
    requires |b.received| <= |b.sent| && buffer.messages == b.sent[|b.received|..]
    ensures buffer.head == b.head <==> buffer.tail == b.tail
  {
    hide Encoded, Record, CellsHold, WriterSafe, ReaderSafe, Unroll, BytesInBuffer, SpacesAvailable;
    CountsAre(b);
    OldestRecord(b);
    assert |buffer.Unread()| == |Encoded(b.sent)| - |Encoded(b.received)|;
    CountsExact(b.tail, b.head, |b.cells|);
  }

  /** xStreamBufferSend on the object goes where the steps go when they are not interrupted. */
  method Send(buffer: StreamBuffer, m: message, ghost b: Buffer) returns (n: nat)
    requires Bounded(b) && Safe(b) && Same(buffer, b) && b.writer.WriteIdle?
    modifies buffer`head, buffer`messages, buffer.buffer
    ensures SendAlone(b, m).sent == if n > 0 then b.sent + [m] else b.sent
    ensures Same(buffer, SendAlone(b, m))
  {
    hide Encoded, Record, Safe, Bounded, SendAlone, Unroll;
    UnreadIs(b);
    SendAloneIs(b, m);
    assert |buffer.Unread()| == |Encoded(buffer.messages)|;
    n := buffer.Send(m);
    assert (b.sent + [m])[|b.received|..] == b.sent[|b.received|..] + [m];
    SameIndices(buffer, SendAlone(b, m));
  }

  lemma Received(b: Buffer, waiting: seq<message>, data: seq<byte>, left: seq<message>, room: nat)
    requires Safe(b) && |b.received| <= |b.sent| && waiting == b.sent[|b.received|..]
    requires if left == waiting then data == [] && (waiting == [] || |waiting[0]| > room)
             else waiting == [data] + left && data != [] && |data| <= room
    ensures data != [] <==> |b.received| < |b.sent| && |b.sent[|b.received|]| <= room
    ensures data != [] ==>
              && left == b.sent[|b.received| + 1..]
              && b.sent[..|b.received| + 1] == b.received + [data]
    ensures data == [] ==> left == waiting
  {
    hide CellsHold, WriterSafe, ReaderSafe, Encoded;
    assert data != [] ==> waiting[0] == data && left == waiting[1..];
  }

  /** And so does xStreamBufferReceive. */
  method Receive(buffer: StreamBuffer, room: nat, ghost b: Buffer) returns (data: seq<byte>)
    requires Bounded(b) && Safe(b) && Same(buffer, b) && b.reader.ReadIdle? && room < TWO32
    modifies buffer`tail, buffer`messages
    ensures ReceiveAlone(b, room).received == if data != [] then b.received + [data] else b.received
    ensures Same(buffer, ReceiveAlone(b, room))
  {
    hide Encoded, Record, Safe, Bounded, ReceiveAlone, Unroll;
    ReceiveAloneIs(b, room);
    ghost var waiting := buffer.messages;
    data := buffer.Receive(room);
    Received(b, waiting, data, buffer.messages, room);
    SameIndices(buffer, ReceiveAlone(b, room));
  }
}
