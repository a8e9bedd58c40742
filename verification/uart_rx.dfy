// Receiving by circular DMA: the hardware writes the ring's storage behind the driver's back,
// and rx_update moves the ring's head by the change of the DMA counter.
module UartRx {
  import opened Words
  import opened RingBuffers

  /** What the driver and the DMA channel share: the storage, the ring indices, the counter
      value seen by the last rx_update and the counter itself (capacity down to 1). */
  datatype Rx = Rx(cells: seq<byte>, head: u32, tail: u32, prev: u32, cndtr: u32)

  // ---- steps ----

  /** The DMA channel stores one byte and reloads its counter at the end of the buffer. */
  function Arrive(s: Rx, b: byte): Rx
    requires 1 <= s.cndtr <= |s.cells| < TWO32
  {
    var c := |s.cells|;
    s.(cells := s.cells[c - s.cndtr := b], cndtr := if s.cndtr == 1 then c else s.cndtr - 1)
  }

  function Delta(prev: u32, curr: u32, capacity: u32): u32
    requires prev <= capacity && curr <= capacity
  {
    if curr <= prev then prev - curr else prev + (capacity - curr)
  }

  /** The index arithmetic of rb_advance_head. */
  function Advance(s: Rx, len: u32): Rx
    requires |s.cells| < TWO32
  {
    var free := Wrap32(|s.cells| - Sub32(s.head, s.tail));
    if len == 0 then s
    else s.(tail := if len > free then Add32(s.tail, len - free) else s.tail, head := Add32(s.head, len))
  }

  function Update(s: Rx): Rx
    requires s.prev <= |s.cells| < TWO32 && s.cndtr <= |s.cells|
  {
    Advance(s.(prev := s.cndtr), Delta(s.prev, s.cndtr, |s.cells|))
  }

  /** rb_get of one byte; None when the ring is empty. */
  function Take(s: Rx): (Rx, seq<byte>)
    requires |s.cells| > 0
  {
    if s.head == s.tail then (s, []) else (s.(tail := Add32(s.tail, 1)), [s.cells[s.tail % |s.cells|]])
  }

  /** rb_get of up to n bytes. */
  function TakeMany(s: Rx, n: nat): (Rx, seq<byte>)
    requires |s.cells| > 0
    decreases n
  {
    var (rest, bytes) := Take(s);
    if n == 0 || bytes == [] then (s, [])
    else
      var (last, more) := TakeMany(rest, n - 1);
      (last, bytes + more)
  }

  /** on_error: flush the ring and restart the DMA channel at the start of the storage. */
  function Restart(s: Rx): Rx
    requires |s.cells| < TWO32
  {
    s.(head := 0, tail := 0, prev := |s.cells|, cndtr := |s.cells|)
  }

  /** uart_dma_rx_flush: flush the ring and leave the DMA channel running. */
  function Flush(s: Rx): Rx { s.(head := 0, tail := 0) }

  // ---- what the state means ----

  /** Since the DMA channel was started, stream has arrived; the driver has seen `seen` bytes
      of it and handed out `taken`. */
  ghost predicate Tracks(s: Rx, stream: seq<byte>, seen: nat, taken: nat) {
    var c := |s.cells|;
    && Capacity(c)
    && taken <= seen <= |stream| && seen <= taken + c
    && s.head == Wrap32(seen) && s.tail == Wrap32(taken)
    && s.prev == c - seen % c && s.cndtr == c - |stream| % c
    && forall k :: 0 <= k < |stream| && |stream| - c <= k ==> s.cells[k % c] == stream[k]
  }

  lemma TracksBounds(s: Rx, stream: seq<byte>, seen: nat, taken: nat)
    requires Tracks(s, stream, seen, taken)
    ensures 1 <= s.cndtr <= |s.cells| < TWO32 && 1 <= s.prev <= |s.cells|
  {
    var c := |s.cells|;
    assert 0 <= seen % c < c && 0 <= |stream| % c < c;
  }

  lemma ArriveTracks(s: Rx, stream: seq<byte>, seen: nat, taken: nat, b: byte)
    requires Tracks(s, stream, seen, taken)
    ensures 1 <= s.cndtr <= |s.cells| < TWO32
    ensures Tracks(Arrive(s, b), stream + [b], seen, taken)
  {
    TracksBounds(s, stream, seen, taken);
    var c, n := |s.cells|, |stream|;
    var t := Arrive(s, b);
    SlotAfterCounter(n, c);
    forall k | 0 <= k <= n && n + 1 - c <= k
      ensures t.cells[k % c] == (stream + [b])[k]
    {
      if k < n {
        SlotsDiffer(k, n, c);
      }
    }
  }

  lemma SlotAfterCounter(n: nat, c: int)
    requires c > 0
    ensures (n + 1) % c == if n % c == c - 1 then 0 else n % c + 1
  {
    var q, r := n / c, n % c;
    assert n == q * c + r;
    if r == c - 1 {
      assert (q + 1) * c == q * c + c;
      DivModUnique(n + 1, c, q + 1, 0);
    } else {
      DivModUnique(n + 1, c, q, r + 1);
    }
  }

  lemma RemainderOfDifference(n: nat, m: nat, c: int)
    requires c > 0 && m <= n
    ensures 0 <= n % c < c && 0 <= m % c < c
    ensures (n - m) % c == if m % c <= n % c then n % c - m % c else n % c - m % c + c
    ensures (n - m) % c == n - m <==> n - m < c
  {
    var q1, r1, q2, r2 := n / c, n % c, m / c, m % c;
    assert n == q1 * c + r1 && m == q2 * c + r2;
    Difference(q2, q1, c);
    if r2 <= r1 {
      DivModUnique(n - m, c, q1 - q2, r1 - r2);
    } else {
      assert (q1 - q2 - 1) * c == (q1 - q2) * c - c;
      DivModUnique(n - m, c, q1 - q2 - 1, r1 - r2 + c);
    }
    if n - m < c {
      DivModUnique(n - m, c, 0, n - m);
    }
  }

  lemma DeltaOfRemainders(r: int, q: int, c: int)
    requires 0 <= r < c < TWO32 && 0 <= q < c
    ensures Delta(c - q, c - r, c) == if q <= r then r - q else r - q + c
  {
  }

  /** The delta of two counter readings is the number of bytes that arrived in between, modulo
      the capacity; so it is that number exactly when it is less than the capacity. */
  lemma DeltaIsArrivals(s: Rx, stream: seq<byte>, seen: nat, taken: nat)
    requires Tracks(s, stream, seen, taken)
    ensures 1 <= s.cndtr <= |s.cells| && 1 <= s.prev <= |s.cells| < TWO32
    ensures Delta(s.prev, s.cndtr, |s.cells|) == (|stream| - seen) % |s.cells|
    ensures Delta(s.prev, s.cndtr, |s.cells|) == |stream| - seen <==> |stream| - seen < |s.cells|
  {
    hide Delta;
    TracksBounds(s, stream, seen, taken);
    RemainderOfDifference(|stream|, seen, |s.cells|);
    DeltaOfRemainders(|stream| % |s.cells|, seen % |s.cells|, |s.cells|);
  }

  lemma AdvanceCounts(s: Rx, seen: nat, taken: nat, n: u32)
    requires Capacity(|s.cells|) && taken <= seen <= taken + |s.cells|
    requires s.head == Wrap32(seen) && s.tail == Wrap32(taken)
    ensures Advance(s, n) == s.(head := Wrap32(seen + n), tail := Wrap32(Max(taken, seen + n - |s.cells|)))
  {
    hide Wrap32, Sub32, Add32;
    Sub32Exact(seen, taken);
    var free := |s.cells| - (seen - taken);
    WrapSmall(free);
    Add32Exact(seen, n);
    if n > free {
      Add32Exact(taken, n - free);
    }
  }

  /** An update that comes before a whole lap has arrived sees everything that arrived.  The
      head is then at the DMA write position, and if the reader was overrun the ring holds
      exactly the last capacity bytes. */
  lemma UpdateTracks(s: Rx, stream: seq<byte>, seen: nat, taken: nat)
    requires Tracks(s, stream, seen, taken) && |stream| - seen < |s.cells|
    ensures s.prev <= |s.cells| < TWO32 && s.cndtr <= |s.cells|
    ensures Tracks(Update(s), stream, |stream|, Max(taken, |stream| - |s.cells|))
    ensures Update(s).head % |s.cells| == |s.cells| - s.cndtr
  {
    hide Delta, Advance, Wrap32;
    DeltaIsArrivals(s, stream, seen, taken);
    AdvanceCounts(s.(prev := s.cndtr), seen, taken, |stream| - seen);
    WrapThenSlot(|stream|, |s.cells|);
  }

  /** The bytes the ring holds after an update, seen from the ring's side. */
  lemma ContentsAreTheLastBytes(s: Rx, stream: seq<byte>, taken: nat)
    requires Tracks(s, stream, |stream|, taken)
    ensures Unroll(s.cells, taken, |stream| - taken) == stream[taken..]
  {
    forall i | 0 <= i < |stream| - taken
      ensures Unroll(s.cells, taken, |stream| - taken)[i] == stream[taken..][i]
    {
    }
  }

  /** The next byte taken is the next byte of the stream, as long as the DMA channel has not
      come round to it. */
  lemma TakeTracks(s: Rx, stream: seq<byte>, seen: nat, taken: nat)
    requires Tracks(s, stream, seen, taken)
    ensures |s.cells| > 0
    ensures Take(s).1 == [] <==> taken == seen
    ensures taken == seen ==> Take(s).0 == s
    ensures taken < seen ==> Tracks(Take(s).0, stream, seen, taken + 1)
    ensures taken < seen && |stream| <= taken + |s.cells| ==> Take(s).1 == [stream[taken]]
  {
    hide Wrap32, Add32;
    Sub32Exact(seen, taken);
    WrapThenSlot(taken, |s.cells|);
    EqualIndices(seen, taken);
    if taken < seen {
      Add32Exact(taken, 1);
    }
  }

  lemma TakeOne(s: Rx)
    requires |s.cells| > 0
    ensures TakeMany(s, 1) == Take(s)
  {
    NothingTaken(Take(s).0, 0);
    assert Take(s).1 + [] == Take(s).1;
    if s.head != s.tail {
      TakeManyStep(s, 1);
    }
  }

  lemma TakeManyStep(s: Rx, n: nat)
    requires |s.cells| > 0 && n > 0 && s.head != s.tail
    ensures var (rest, bytes) := Take(s);
            && rest.cells == s.cells
            && TakeMany(s, n) == (TakeMany(rest, n - 1).0, bytes + TakeMany(rest, n - 1).1)
  {
  }

  lemma {:induction false} TakeManyIs(s: Rx, written: nat, read: nat, n: nat)
    requires Capacity(|s.cells|) && read <= written <= read + |s.cells|
    requires s.head == Wrap32(written) && s.tail == Wrap32(read)
    ensures var k := Min(n, written - read);
            k >= 0 && |s.cells| > 0 && TakeMany(s, n) == (s.(tail := Wrap32(read + k)), Unroll(s.cells, read, k))
    decreases n
  {
    hide Wrap32, Add32, Unroll, Take, TakeMany;
    EqualIndices(written, read);
    TakeIs(s);
    if n == 0 || s.head == s.tail {
      NothingTaken(s, n);
      assert Unroll(s.cells, read, 0) == [];
    } else {
      Add32Exact(read, 1);
      WrapThenSlot(read, |s.cells|);
      TakeManyStep(s, n);
      TakeManyIs(Take(s).0, written, read + 1, n - 1);
      var k := Min(n, written - read);
      UnrollSplit(s.cells, read, k, 1);
      FirstOfUnroll(s.cells, read, 1);
      assert Unroll(s.cells, read, 1) == Take(s).1;
      assert Min(n - 1, written - (read + 1)) == k - 1 && read + 1 + (k - 1) == read + k;
    }
  }

  lemma TakeIs(s: Rx)
    requires |s.cells| > 0
    ensures s.head != s.tail ==> Take(s) == (s.(tail := Add32(s.tail, 1)), [s.cells[s.tail % |s.cells|]])
  {
  }

  lemma NothingTaken(s: Rx, n: nat)
    requires |s.cells| > 0 && (n == 0 || s.head == s.tail)
    ensures TakeMany(s, n) == (s, [])
  {
  }

  /** A read of any length takes the next bytes of the stream, as many as are wanted and seen, while
      the channel has not lapped them. */
  lemma {:induction false} TakeManyTracks(s: Rx, stream: seq<byte>, seen: nat, taken: nat, n: nat)
    requires Tracks(s, stream, seen, taken)
    ensures |s.cells| > 0 && taken <= seen <= |stream|
    ensures var k := Min(n, seen - taken);
            && Tracks(TakeMany(s, n).0, stream, seen, taken + k)
            && (|stream| <= taken + |s.cells| ==> TakeMany(s, n).1 == stream[taken..taken + k])
    decreases n
  {
    hide Take, TakeMany, Wrap32, Add32;
    TakeTracks(s, stream, seen, taken);
    TakeIs(s);
    EqualIndices(seen, taken);
    if n == 0 || s.head == s.tail {
      NothingTaken(s, n);
    } else {
      TakeManyStep(s, n);
      TakeManyTracks(Take(s).0, stream, seen, taken + 1, n - 1);
      var k := Min(n, seen - taken);
      assert stream[taken..taken + k] == [stream[taken]] + stream[taken + 1..taken + k];
    }
  }

  /** After an error the driver is back in step with the DMA channel, from any state. */
  lemma RestartTracks(s: Rx)
    requires Capacity(|s.cells|)
    ensures Tracks(Restart(s), [], 0, 0)
  {
    DivModUnique(0, |s.cells|, 0, 0);
  }

  /** The head of the ring and the DMA write position last seen name the same slot. */
  ghost predicate InStep(s: Rx)
    requires |s.cells| > 0
  {
    s.head % |s.cells| == (|s.cells| - s.prev) % |s.cells|
  }

  /** A flush without a restart keeps the ring in step exactly when the DMA channel was last
      seen at the start of the storage. */
  lemma FlushInStepIff(s: Rx, stream: seq<byte>, seen: nat, taken: nat)
    requires Tracks(s, stream, seen, taken)
    ensures |s.cells| > 0 && InStep(s)
    ensures InStep(Flush(s)) <==> s.prev == |s.cells|
    ensures InStep(Flush(s)) <==> seen % |s.cells| == 0
  {
    var c := |s.cells|;
    WrapThenSlot(seen, c);
    var r := seen % c;
    assert 0 <= r < c;
    DivModUnique(r, c, 0, r);
    DivModUnique(0, c, 0, 0);
  }

  /** The byte read first after a flush, one more arrival and an update. */
  function FirstAfterFlush(s: Rx, b: byte): seq<byte>
    requires 1 <= s.prev <= |s.cells| < TWO32 && 1 <= s.cndtr <= |s.cells|
  {
    Take(Update(Arrive(Flush(s), b))).1
  }

  /** What the loss of step means for the reader: after a flush of a ring that has seen all
      arrivals, the next byte read is the next byte to arrive, whichever it is, exactly when
      the DMA channel is at the start of the storage.  Otherwise a stale byte is read. */
  lemma FlushDeliversIff(s: Rx, stream: seq<byte>, taken: nat)
    requires Tracks(s, stream, |stream|, taken) && |s.cells| >= 2
    ensures 1 <= s.prev <= |s.cells| < TWO32 && 1 <= s.cndtr <= |s.cells|
    ensures (forall b: byte :: FirstAfterFlush(s, b) == [b]) <==> |stream| % |s.cells| == 0
  {
    TracksBounds(s, stream, |stream|, taken);
    var c := |s.cells|;
    forall b: byte
      ensures FirstAfterFlush(s, b) == [if |stream| % c == 0 then b else s.cells[0]]
    {
      FirstByteAfterFlush(s, stream, taken, b);
    }
    if |stream| % c != 0 {
      var other: byte := if s.cells[0] == 0 then 1 else 0;
      assert FirstAfterFlush(s, other) != [other];
    }
  }

  lemma FirstByteAfterFlush(s: Rx, stream: seq<byte>, taken: nat, b: byte)
    requires Tracks(s, stream, |stream|, taken) && |s.cells| >= 2
    ensures 1 <= s.prev <= |s.cells| < TWO32 && 1 <= s.cndtr <= |s.cells|
    ensures FirstAfterFlush(s, b) == [if |stream| % |s.cells| == 0 then b else s.cells[0]]
  {
    TracksBounds(s, stream, |stream|, taken);
    var c := |s.cells|;
    var t := Arrive(Flush(s), b);
    assert Delta(t.prev, t.cndtr, c) == 1;
    assert Update(t).head == 1 && Update(t).tail == 0;
    DivModUnique(0, c, 0, 0);
  }

  /** A single arrival is enough: after power-up one byte comes in, the ring is flushed, and the read
      after the next byte delivers the old byte again instead of it. */
  lemma StaleByteAfterFlush(cells: seq<byte>, a: byte, b: byte)
    requires Capacity(|cells|) && |cells| >= 2
    ensures var s := Arrive(Rx(cells, 0, 0, |cells|, |cells|), a);
            && 1 <= s.prev <= |s.cells| < TWO32 && 1 <= s.cndtr <= |s.cells|
            && var t := Update(s);
               1 <= t.prev <= |t.cells| && 1 <= t.cndtr <= |t.cells| == |cells| && FirstAfterFlush(t, b) == [a]
  {
    hide Tracks, Update, FirstAfterFlush, Capacity;
    SmallCapacity(|cells|);
    var s0 := Rx(cells, 0, 0, |cells|, |cells|);
    RestartTracks(s0);
    assert Restart(s0) == s0;
    ArriveTracks(s0, [], 0, 0, a);
    assert [] + [a] == [a];
    var s := Arrive(s0, a);
    TracksBounds(s, [a], 0, 0);
    UpdateTracks(s, [a], 0, 0);
    var t := Update(s);
    UpdateKeepsCells(s);
    TracksBounds(t, [a], 1, 0);
    FirstByteAfterFlush(t, [a], 0, b);
    DivModUnique(1, |cells|, 0, 1);
    assert s.cells[0] == a;
  }

  lemma SmallCapacity(c: int)
    requires Capacity(c)
    ensures 0 < c < TWO32
  {
  }

  lemma UpdateKeepsCells(s: Rx)
    requires s.prev <= |s.cells| < TWO32 && s.cndtr <= |s.cells|
    ensures Update(s).cells == s.cells
  {
  }

  // ---- the driver ----

  /** The receive half of uart_dma_handle and the DMA channel it is paired with. */
  class Receiver {
    var ring: RingBuffer
    var rxPrevCndtr: u32
    var errorCount: u32
    var errorRestarts: u32
    // The DMA channel's counter register.
    var cndtr: u32

    ghost predicate Valid()
      reads this, ring
    {
      && ring.Valid()
      && 1 <= rxPrevCndtr <= ring.capacity && 1 <= cndtr <= ring.capacity
    }

    ghost function View(): Rx
      requires Valid()
      reads this, ring, ring.buffer
    {
      Rx(ring.buffer[..], ring.head, ring.tail, rxPrevCndtr, cndtr)
    }

    /** uart_dma_open, the receive half. */
    constructor (storage: array<byte>)
      requires Capacity(storage.Length)
      ensures Valid() && fresh(ring) && ring.buffer == storage && ring.Contents() == []
      ensures View() == Rx(storage[..], 0, 0, storage.Length, storage.Length)
      ensures Tracks(View(), [], 0, 0)
    {
      ring := new RingBuffer(storage);
      errorCount, errorRestarts := 0, 0;
      rxPrevCndtr, cndtr := storage.Length, storage.Length;
      new;
      RestartTracks(View());
    }

    /** The hardware's step. */
    method DmaStore(b: byte)
      requires Valid()
      modifies this`cndtr, ring.buffer
      ensures Valid() && View() == Arrive(old(View()), b)
    {
      ring.buffer[ring.capacity - cndtr] := b;
      cndtr := if cndtr == 1 then ring.capacity else cndtr - 1;
    }

    /** rx_update, called from the half-transfer, transfer-complete and idle interrupts. */
    method RxUpdate()
      requires Valid()
      modifies this`rxPrevCndtr, ring`head, ring`tail, ring`written, ring`read
      ensures Valid() && View() == Update(old(View()))
    {
      hide Advance, Wrap32, Unroll;
      var curr := cndtr;
      var prev := rxPrevCndtr;
      var delta: u32;
      if curr <= prev {
        delta := prev - curr;
      } else {
        delta := prev + (ring.capacity - curr);
      }
      rxPrevCndtr := curr;
      AdvanceCounts(View(), ring.written, ring.read, delta);
      if delta > 0 {
        ring.AdvanceHead(delta);
      }
    }

    /** uart_dma_recv. */
    method Recv(len: u32) returns (bytes: seq<byte>)
      requires Valid()
      modifies ring`tail, ring`read
      ensures Valid() && (View(), bytes) == TakeMany(old(View()), len)
    {
      hide Unroll, Wrap32, Add32;
      TakeManyIs(View(), ring.written, ring.read, len);
      if len == 0 {
        return [];
      }
      ghost var all, read := ring.Contents(), ring.read;
      bytes := ring.Get(len);
      UnrollSplit(ring.buffer[..], read, |all|, |bytes|);
      assert bytes == all[..|bytes|];
    }

    /** on_error. */
    method OnError()
      requires Valid()
      modifies this, ring`head, ring`tail, ring`written, ring`read
      ensures Valid() && ring == old(ring) && View() == Restart(old(View()))
      ensures errorCount == Add32(old(errorCount), 1) && errorRestarts == Add32(old(errorRestarts), 1)
    {
      errorCount := Add32(errorCount, 1);
      errorRestarts := Add32(errorRestarts, 1);
      ring.Flush();
      rxPrevCndtr := ring.capacity;
      cndtr := ring.capacity;
    }

    /** uart_dma_rx_flush. */
    method RxFlush()
      requires Valid()
      modifies ring`head, ring`tail, ring`written, ring`read
      ensures Valid() && View() == Flush(old(View()))
    {
      ring.Flush();
    }
  }
}
