// The ring buffer between one producer and one consumer, without a lock.  rb_put and rb_get
// are cut into what the two sides do to shared memory: take a snapshot of the indices, copy
// one byte, publish the own index.  Either side may move between any two of these steps.
module Spsc {
  import opened Words
  import RingBuffers

  datatype Producer = PutIdle | Putting(data: seq<byte>, copied: nat)

  datatype Consumer = GetIdle | Getting(n: nat, copied: seq<byte>)

  /** put and got are the histories of published and of delivered bytes. */
  datatype Ring = Ring(
    cells: seq<byte>, head: u32, tail: u32,
    producer: Producer, consumer: Consumer,
    put: seq<byte>, got: seq<byte>)

  datatype Event =
    | PutStart(data: seq<byte>)
    | PutByte
    | PutPublish
    | GetStart(len: nat)
    | GetByte
    | GetPublish

  function Slot(index: u32, n: nat, capacity: nat): int
    requires capacity > 0
  {
    SlotAfter(index % capacity, n, capacity)
  }

  /** One step of either side; an event that does not apply changes nothing. */
  function Step(r: Ring, e: Event): Ring
    requires |r.cells| > 0
  {
    var c := |r.cells|;
    match e
    case PutStart(data) =>
      var free := Wrap32(c - Sub32(r.head, r.tail));
      var n := Min(|data|, free);
      if r.producer.PutIdle? && 0 < n then r.(producer := Putting(data[..n], 0)) else r
    case PutByte =>
      if r.producer.Putting? && r.producer.copied < |r.producer.data|
         && 0 <= Slot(r.head, r.producer.copied, c) < c
      then
        var k := r.producer.copied;
        r.(cells := r.cells[Slot(r.head, k, c) := r.producer.data[k]],
           producer := r.producer.(copied := k + 1))
      else r
    case PutPublish =>
      if r.producer.Putting? && r.producer.copied == |r.producer.data|
      then
        r.(head := Wrap32(r.head + |r.producer.data|), producer := PutIdle, put := r.put + r.producer.data)
      else r
    case GetStart(len) =>
      var n := Min(len, Sub32(r.head, r.tail));
      if r.consumer.GetIdle? && 0 < n then r.(consumer := Getting(n, [])) else r
    case GetByte =>
      if r.consumer.Getting? && |r.consumer.copied| < r.consumer.n
         && 0 <= Slot(r.tail, |r.consumer.copied|, c) < c
      then
        var k := |r.consumer.copied|;
        r.(consumer := r.consumer.(copied := r.consumer.copied + [r.cells[Slot(r.tail, k, c)]]))
      else r
    case GetPublish =>
      if r.consumer.Getting? && |r.consumer.copied| == r.consumer.n
      then
        r.(tail := Wrap32(r.tail + r.consumer.n), consumer := GetIdle, got := r.got + r.consumer.copied)
      else r
  }

  function Run(r: Ring, events: seq<Event>): Ring
    requires |r.cells| > 0
    decreases |events|
  {
    if events == [] then r else StepKeepsCapacity(r, events[0]); Run(Step(r, events[0]), events[1..])
  }

  lemma StepKeepsCapacity(r: Ring, e: Event)
    requires |r.cells| > 0
    ensures |Step(r, e).cells| == |r.cells|
  {
  }

  function Empty(cells: seq<byte>): Ring { Ring(cells, 0, 0, PutIdle, GetIdle, [], []) }

  // Bytes put so far and those of the put in progress that are already copied, by position.
  function Visible(r: Ring): seq<byte> {
    if r.producer.Putting? && r.producer.copied <= |r.producer.data|
    then r.put + r.producer.data[..r.producer.copied] else r.put
  }

  ghost predicate Safe(r: Ring) {
    var c, w, t := |r.cells|, |r.put|, |r.got|;
    && Capacity(c)
    // the indices are the counters modulo 2^32
    && r.head == Wrap32(w) && r.tail == Wrap32(t) && t <= w <= t + c
    // what was got is what was put
    && r.got == r.put[..t]
    // nothing unread is overwritten
    && (forall k :: t <= k < |Visible(r)| ==> r.cells[k % c] == Visible(r)[k])
    && (r.producer.Putting? ==>
          r.producer.copied <= |r.producer.data| && w + |r.producer.data| <= t + c)
    && (r.consumer.Getting? ==>
          && |r.consumer.copied| <= r.consumer.n && t + r.consumer.n <= w
          && r.consumer.copied == r.put[t..t + |r.consumer.copied|])
  }

  lemma PutByteKeepsSafe(r: Ring)
    requires Safe(r)
    ensures Safe(Step(r, PutByte))
  {
    var c, w := |r.cells|, |r.put|;
    if r.producer.Putting? && r.producer.copied < |r.producer.data| {
      var k := r.producer.copied;
      WrapThenSlot(w, c);
      SlotAfterIs(w, k, c);
      var n := Step(r, PutByte);
      assert Visible(n) == Visible(r) + [r.producer.data[k]];
      forall j | |r.got| <= j < |Visible(n)|
        ensures n.cells[j % c] == Visible(n)[j]
      {
        if j < w + k {
          SlotsDiffer(j, w + k, c);
        }
      }
    }
  }

  lemma GetByteKeepsSafe(r: Ring)
    requires Safe(r)
    ensures Safe(Step(r, GetByte))
  {
    var c, t := |r.cells|, |r.got|;
    if r.consumer.Getting? && |r.consumer.copied| < r.consumer.n {
      var k := |r.consumer.copied|;
      WrapThenSlot(t, c);
      SlotAfterIs(t, k, c);
      assert Visible(r)[t + k] == r.put[t + k];
      assert r.put[t..t + k + 1] == r.put[t..t + k] + [r.put[t + k]];
    }
  }

  lemma PublishKeepsSafe(r: Ring, e: Event)
    requires Safe(r) && (e.PutPublish? || e.GetPublish?)
    ensures Safe(Step(r, e))
  {
    hide Wrap32;
    var n := Step(r, e);
    if e.PutPublish? && r.producer.Putting? && r.producer.copied == |r.producer.data| {
      assert Visible(n) == Visible(r);
      Add32Exact(|r.put|, |r.producer.data|);
    } else if e.GetPublish? && r.consumer.Getting? && |r.consumer.copied| == r.consumer.n {
      assert Visible(n) == Visible(r);
      Add32Exact(|r.got|, r.consumer.n);
      assert r.put[..|n.got|] == r.put[..|r.got|] + r.put[|r.got|..|n.got|];
    }
  }

  lemma StartKeepsSafe(r: Ring, e: Event)
    requires Safe(r) && (e.PutStart? || e.GetStart?)
    ensures Safe(Step(r, e))
  {
    hide Wrap32;
    Sub32Exact(|r.put|, |r.got|);
    WrapSmall(|r.cells| - (|r.put| - |r.got|));
    assert Visible(Step(r, e)) == Visible(r);
  }

  lemma StepKeepsSafe(r: Ring, e: Event)
    requires Safe(r)
    ensures Safe(Step(r, e))
  {
    hide Step, Safe;
    match e
    case PutStart(_) => StartKeepsSafe(r, e);
    case PutByte => PutByteKeepsSafe(r);
    case PutPublish => PublishKeepsSafe(r, e);
    case GetStart(_) => StartKeepsSafe(r, e);
    case GetByte => GetByteKeepsSafe(r);
    case GetPublish => PublishKeepsSafe(r, e);
  }

  /** Under every interleaving of the two sides, for ever and across index wrap: the bytes got
      are a prefix of the bytes put, in order, and the indices never drift apart by more than
      the capacity. */
  lemma EveryInterleavingIsSafe(cells: seq<byte>, events: seq<Event>)
    requires Capacity(|cells|)
    ensures var r := Run(Empty(cells), events);
            && r.got <= r.put && |r.put| - |r.got| <= |cells|
            && Sub32(r.head, r.tail) == |r.put| - |r.got|
            && Safe(r)
  {
    RunKeepsSafe(Empty(cells), events);
    var r := Run(Empty(cells), events);
    Sub32Exact(|r.put|, |r.got|);
  }

  lemma {:induction false} RunKeepsSafe(r: Ring, events: seq<Event>)
    requires Safe(r)
    ensures Safe(Run(r, events)) && |Run(r, events).cells| == |r.cells|
    decreases |events|
  {
    hide Step, Safe;
    SafeHasCells(r);
    if events != [] {
      StepKeepsSafe(r, events[0]);
      StepKeepsCapacity(r, events[0]);
      RunKeepsSafe(Step(r, events[0]), events[1..]);
    }
  }

  lemma SafeHasCells(r: Ring)
    requires Safe(r)
    ensures |r.cells| > 0
  {
  }

  // ---- one side alone ----

  function Repeated(r: Ring, e: Event, n: nat): (after: Ring)
    requires |r.cells| > 0
    ensures |after.cells| == |r.cells|
  {
    if n == 0 then r else StepKeepsCapacity(Repeated(r, e, n - 1), e); Step(Repeated(r, e, n - 1), e)
  }

  /** rb_put and rb_get with nothing in between. */
  function PutAlone(r: Ring, data: seq<byte>): Ring
    requires |r.cells| > 0
  {
    StepKeepsCapacity(r, PutStart(data));
    Step(Repeated(Step(r, PutStart(data)), PutByte, |data|), PutPublish)
  }

  function GetAlone(r: Ring, len: nat): Ring
    requires |r.cells| > 0
  {
    StepKeepsCapacity(r, GetStart(len));
    Step(Repeated(Step(r, GetStart(len)), GetByte, len), GetPublish)
  }

  lemma {:induction false} NothingToCopy(r: Ring, e: Event, n: nat)
    requires |r.cells| > 0
    requires (e.PutByte? && r.producer.PutIdle?) || (e.GetByte? && r.consumer.GetIdle?)
    ensures Repeated(r, e, n) == r
  {
    if n > 0 {
      NothingToCopy(r, e, n - 1);
    }
  }

  lemma {:induction false} PutCopies(r: Ring, data: seq<byte>, k: nat)
    requires |r.cells| > 0 && r.producer == Putting(data, 0) && |data| <= |r.cells| && k <= |data|
    ensures var after := Repeated(r, PutByte, k);
            && after == r.(cells := after.cells, producer := Putting(data, k))
            && 0 <= r.head % |r.cells| && WrittenFrom(r.cells, after.cells, r.head % |r.cells|, data[..k])
  {
    if k > 0 {
      PutCopies(r, data, k - 1);
      assert data[..k] == data[..k - 1] + [data[k - 1]];
    }
  }

  lemma GetByteIs(r: Ring)
    requires |r.cells| > 0 && r.consumer.Getting? && |r.consumer.copied| < r.consumer.n
    requires 0 <= Slot(r.tail, |r.consumer.copied|, |r.cells|) < |r.cells|
    ensures Step(r, GetByte) == r.(consumer := Getting(r.consumer.n,
                                     r.consumer.copied + [r.cells[Slot(r.tail, |r.consumer.copied|, |r.cells|)]]))
  {
    hide Slot;
  }

  lemma OneMoreUnrolled(cells: seq<byte>, start: nat, k: nat)
    requires |cells| > 0
    ensures 0 <= (start + k) % |cells| < |cells|
    ensures Unroll(cells, start, k + 1) == Unroll(cells, start, k) + [cells[(start + k) % |cells|]]
  {
  }

  lemma {:induction false} GetCopies(r: Ring, start: nat, k: nat)
    requires |r.cells| > 0 && r.consumer.Getting? && r.consumer.copied == []
    requires k <= r.consumer.n <= |r.cells| && r.tail % |r.cells| == start % |r.cells|
    ensures Repeated(r, GetByte, k) == r.(consumer := Getting(r.consumer.n, Unroll(r.cells, start, k)))
  {
    hide Unroll, Step, SlotAfter;
    if k > 0 {
      GetCopies(r, start, k - 1);
      SlotAfterIs(start, k - 1, |r.cells|);
      GetByteIs(Repeated(r, GetByte, k - 1));
      OneMoreUnrolled(r.cells, start, k - 1);
    } else {
      assert Unroll(r.cells, start, 0) == [];
    }
  }

  lemma {:induction false} RepeatedMore(r: Ring, e: Event, k: nat, n: nat)
    requires |r.cells| > 0 && k <= n && Step(Repeated(r, e, k), e) == Repeated(r, e, k)
    ensures Repeated(r, e, n) == Repeated(r, e, k)
  {
    if k < n {
      RepeatedMore(r, e, k, n - 1);
    }
  }

  /** A put that is not interrupted has the effect of rb_put, whatever the consumer has begun: it
      takes what fits, writes it round from the head and changes nothing else. */
  lemma PutAloneIs(r: Ring, data: seq<byte>)
    requires Safe(r) && r.producer.PutIdle?
    ensures var n, after := Min(|data|, |r.cells| - (|r.put| - |r.got|)), PutAlone(r, data);
            && n >= 0 && after == r.(cells := after.cells, head := Wrap32(|r.put| + n), put := r.put + data[..n])
            && 0 <= r.head % |r.cells| && WrittenFrom(r.cells, after.cells, r.head % |r.cells|, data[..n])
  {
    hide Wrap32, Safe;
    SafeIs(r);
    var n := Min(|data|, |r.cells| - (|r.put| - |r.got|));
    Sub32Exact(|r.put|, |r.got|);
    WrapSmall(|r.cells| - (|r.put| - |r.got|));
    var started := Step(r, PutStart(data));
    if n == 0 {
      NothingToCopy(r, PutByte, |data|);
    } else {
      PutCopies(started, data[..n], n);
      RepeatedMore(started, PutByte, n, |data|);
      Add32Exact(|r.put|, n);
      assert data[..n][..n] == data[..n];
    }
  }

  /** A get that is not interrupted has the effect of rb_get: it delivers the oldest bytes, as many
      as are wanted and there, and changes nothing else. */
  lemma GetAloneIs(r: Ring, len: nat)
    requires Safe(r) && r.consumer.GetIdle?
    ensures var n := Min(len, |r.put| - |r.got|);
            && n >= 0 && GetAlone(r, len) == r.(tail := Wrap32(|r.got| + n), got := r.put[..|r.got| + n])
  {
    hide Wrap32, Safe, Unroll;
    SafeIs(r);
    var t, n := |r.got|, Min(len, |r.put| - |r.got|);
    Sub32Exact(|r.put|, t);
    var started := Step(r, GetStart(len));
    if n == 0 {
      NothingToCopy(r, GetByte, len);
    } else {
      WrapThenSlot(t, |r.cells|);
      GetCopies(started, t, n);
      RepeatedMore(started, GetByte, n, len);
      Add32Exact(t, n);
      UnreadBytes(r, n);
      assert r.put[..t + n] == r.got + r.put[t..t + n];
    }
  }

  lemma SafeIs(r: Ring)
    requires Safe(r)
    ensures Capacity(|r.cells|) && r.head == Wrap32(|r.put|) && r.tail == Wrap32(|r.got|)
    ensures r.got == r.put[..|r.got|] && |r.got| <= |r.put| <= |r.got| + |r.cells|
  {
  }

  lemma UnreadBytes(r: Ring, n: nat)
    requires Safe(r) && n <= |r.put| - |r.got|
    ensures Unroll(r.cells, |r.got|, n) == r.put[|r.got|..|r.got| + n]
  {
    forall i | 0 <= i < n
      ensures Unroll(r.cells, |r.got|, n)[i] == r.put[|r.got|..|r.got| + n][i]
    {
      assert Visible(r)[|r.got| + i] == r.put[|r.got| + i];
    }
  }

  // ---- the ring of the driver is this ring ----

  /** The object and the ring of the two sides are in the same state. */
  ghost predicate Same(ring: RingBuffers.RingBuffer, r: Ring)
    reads ring, ring.buffer
  {
    && |r.cells| > 0 && ring.Valid() && ring.buffer[..] == r.cells && ring.head == r.head && ring.tail == r.tail
    && ring.written == |r.put| && ring.read == |r.got|
  }

  lemma WrittenOnlySo(before: seq<byte>, a: seq<byte>, b: seq<byte>, i: nat, data: seq<byte>)
    requires WrittenFrom(before, a, i, data) && WrittenFrom(before, b, i, data)
    ensures a == b
  {
  }

  /** rb_put on the object goes where the three kinds of steps go when they are not interrupted. */
  method Put(ring: RingBuffers.RingBuffer, data: seq<byte>, ghost r: Ring) returns (n: u32)
    requires Same(ring, r) && Safe(r) && r.producer.PutIdle? && |data| < TWO32
    modifies ring`head, ring`written, ring.buffer
    ensures n <= |data| && PutAlone(r, data).put == r.put + data[..n]
    ensures Same(ring, PutAlone(r, data))
  {
    hide Safe, PutAlone, Wrap32, WrittenFrom;
    PutAloneIs(r, data);
    n := ring.Put(data);
    WrittenOnlySo(r.cells, ring.buffer[..], PutAlone(r, data).cells, r.head % |r.cells|, data[..n]);
  }

  lemma ContentsAre(ring: RingBuffers.RingBuffer, r: Ring)
    requires Same(ring, r) && Safe(r)
    ensures |r.got| <= |r.put| && ring.Contents() == r.put[|r.got|..]
  {
    hide Safe, Wrap32, Unroll, Capacity;
    SafeIs(r);
    UnreadBytes(r, |r.put| - |r.got|);
  }

  lemma FirstBytes(a: seq<byte>, b: seq<byte>, put: seq<byte>, t: nat)
    requires t <= |put| && put[t..] == a + b
    ensures put[..t + |a|] == put[..t] + a
  {
    assert a == (a + b)[..|a|];
  }

  /** And so does rb_get. */
  method Get(ring: RingBuffers.RingBuffer, len: u32, ghost r: Ring) returns (dst: seq<byte>)
    requires Same(ring, r) && Safe(r) && r.consumer.GetIdle?
    modifies ring`tail, ring`read
    ensures Same(ring, GetAlone(r, len)) && GetAlone(r, len).got == r.got + dst
  {
    hide Safe, GetAlone, Wrap32, Unroll, Capacity;
    SafeIs(r);
    GetAloneIs(r, len);
    ContentsAre(ring, r);
    dst := ring.Get(len);
    FirstBytes(dst, ring.Contents(), r.put, |r.got|);
  }
}
