// Sending by chained DMA: tx_kick hands the pending bytes of the ring to the DMA channel, the
// transfer-complete interrupt advances the tail and chains the second segment or the next kick.
//
// tx_kick chooses between one segment and two by comparing the free-running indices, not the
// masked ones.  KickFitsIff says exactly when its choice stays inside the storage, and the run
// theorem holds for the runs all of whose kicks do.
module UartTx {
  import opened Words
  import opened RingBuffers

  datatype Dma = Off | Busy(start: nat, len: nat, done: nat)

  datatype Tx = Tx(
    cells: seq<byte>, head: u32, tail: u32,
    kickHead: u32, chainPending: bool, idle: bool, dma: Dma)

  // ---- the driver's steps ----

  /** tx_kick. */
  function Kick(t: Tx): Tx
    requires 0 < |t.cells| < TWO32
  {
    if t.head == t.tail then t.(idle := true)
    else
      var c := |t.cells|;
      var ti, hi := t.tail % c, t.head % c;
      if t.tail < t.head
      then t.(kickHead := t.head, idle := false, chainPending := false, dma := Busy(ti, t.head - t.tail, 0))
      else t.(kickHead := t.head, idle := false, chainPending := hi > 0, dma := Busy(ti, c - ti, 0))
  }

  /** The next start of the storage behind an index: (index & ~mask) + capacity. */
  function NextLap(index: nat, c: nat): nat
    requires c > 0
  {
    index - index % c + c
  }

  lemma NextLapIs(index: nat, c: nat)
    requires c > 0
    ensures index < NextLap(index, c) <= index + c
  {
  }

  /** The tail after the first of two segments, not past kick_head. */
  function ChainedTail(t: Tx): u32
    requires 0 < |t.cells| < TWO32
  {
    var next := Wrap32(NextLap(t.tail, |t.cells|));
    if next > t.kickHead then t.kickHead else next
  }

  /** on_tx_tc; the DMA channel has stopped when it is called. */
  function TransferComplete(t: Tx): Tx
    requires 0 < |t.cells| < TWO32
  {
    var s2 := t.kickHead % |t.cells|;
    if t.chainPending && s2 > 0
    then t.(chainPending := false, tail := ChainedTail(t), dma := Busy(0, s2, 0))
    else
      var u := t.(chainPending := false, tail := t.kickHead, dma := Off);
      if u.head != u.tail then Kick(u) else u.(idle := true)
  }

  /** The storage after rb_put. */
  function Store(cells: seq<byte>, i: nat, data: seq<byte>): (r: seq<byte>)
    requires i < |cells|
    ensures |r| == |cells|
  {
    seq(|cells|, s requires 0 <= s < |cells| =>
      if 0 <= Ahead(s, i, |cells|) < |data| then data[Ahead(s, i, |cells|)] else cells[s])
  }

  function Free(t: Tx): u32
    requires |t.cells| < TWO32
  {
    Wrap32(|t.cells| - Sub32(t.head, t.tail))
  }

  function Put(t: Tx, data: seq<byte>): Tx
    requires 0 < |t.cells| < TWO32 && |data| < TWO32
  {
    var n := Min(|data|, Free(t));
    t.(cells := Store(t.cells, t.head % |t.cells|, data[..n]), head := Add32(t.head, n))
  }

  /** The second half of uart_dma_send. */
  function KickIfIdle(t: Tx): Tx
    requires 0 < |t.cells| < TWO32
  {
    if t.idle && t.head != t.tail then Kick(t) else t
  }

  // ---- when a kick is right ----

  ghost predicate Pending(t: Tx, tail: nat, head: nat) {
    && Capacity(|t.cells|) && tail < head <= tail + |t.cells|
    && t.head == Wrap32(head) && t.tail == Wrap32(tail)
  }

  /** The segment a kick hands to the DMA channel lies inside the storage. */
  ghost predicate Fits(t: Tx) { t.dma.Busy? ==> t.dma.start + t.dma.len <= |t.cells| }

  /** The pending bytes go round the physical end of the storage. */
  predicate Straddles(t: Tx)
    requires 0 < |t.cells|
  {
    t.tail % |t.cells| + Sub32(t.head, t.tail) > |t.cells|
  }

  /** The guard a caller could check: one segment is right unless the region straddles, two are
      right because a region that meets the raw index wrap ends or goes round there. */
  predicate GoodKick(t: Tx)
    requires 0 < |t.cells|
  {
    t.tail < t.head ==> !Straddles(t)
  }

  /** A kick stays inside the storage exactly when the pending region does not straddle its
      physical end or meets the wrap of the 32-bit index. */
  lemma KickFitsIff(t: Tx, tail: nat, head: nat)
    requires Pending(t, tail, head)
    ensures 0 < |t.cells| < TWO32 && Kick(t).dma.Busy?
    ensures Fits(Kick(t)) <==> GoodKick(t)
    ensures !Fits(Kick(t)) ==> t.tail < t.head && Kick(t).dma.len > |t.cells| - t.tail % |t.cells|
  {
    EqualIndices(head, tail);
    Sub32Exact(head, tail);
    assert t.tail < t.head ==> t.head - t.tail == head - tail;
  }

  /** A region that meets the wrap of the 32-bit index: the first segment ends at the wrap, and
      the kick's second segment is what lies behind it. */
  lemma RawWrap(t: Tx, tail: nat, head: nat)
    requires Pending(t, tail, head) && t.tail > t.head
    ensures var c := |t.cells|;
            var next := NextLap(tail, c);
            && tail < next <= head && Wrap32(next) == 0
            && head - next == t.head == t.head % c
            && t.tail % c == tail % c
  {
    var c := |t.cells|;
    WrapThenSlot(tail, c);
    var q, r := tail / TWO32, tail % TWO32;
    assert tail == q * TWO32 + r;
    var wrap := (q + 1) * TWO32;
    var d := wrap - tail;
    assert head % TWO32 < r;
    assert head >= wrap by {
      if head < wrap {
        DivModUnique(head, TWO32, q, head - q * TWO32);
      }
    }
    assert d <= c;
    // wrap is a multiple of the capacity, so it is the next one after tail
    var k := TWO32 / c;
    assert TWO32 == k * c;
    assert wrap == ((q + 1) * k) * c;
    if d == c {
      DivModUnique(tail, c, (q + 1) * k - 1, 0);
    } else {
      assert ((q + 1) * k - 1) * c == ((q + 1) * k) * c - c;
      DivModUnique(tail, c, (q + 1) * k - 1, c - d);
    }
    DivModUnique(wrap, TWO32, q + 1, 0);
    DivModUnique(head, TWO32, q + 1, head - wrap);
    DivModUnique(t.head, c, 0, t.head);
  }

  // ---- runs ----

  /** The driver with the histories of accepted and of transmitted bytes, and the number of bytes
      whose transmission has been confirmed and that had been accepted at the last kick. */
  datatype Line = Line(tx: Tx, sending: bool, accepted: seq<byte>, wire: seq<byte>, confirmed: nat, kicked: nat)

  datatype Event =
    | PutBytes(data: seq<byte>)   // rb_put inside uart_dma_send
    | FinishSend                  // the test of idle and the kick inside uart_dma_send
    | DmaByte                     // the DMA channel transmits one byte
    | TcInterrupt                 // the transfer-complete interrupt

  predicate Enabled(l: Line, e: Event) {
    match e
    case PutBytes(data) => !l.sending && |data| < TWO32
    case FinishSend => l.sending
    case DmaByte => l.tx.dma.Busy? && l.tx.dma.done < l.tx.dma.len && l.tx.dma.start + l.tx.dma.done < |l.tx.cells|
    case TcInterrupt => l.tx.dma.Busy? && l.tx.dma.done == l.tx.dma.len
  }

  /** The state in which an event performs a kick. */
  predicate Kicks(l: Line, e: Event)
    requires 0 < |l.tx.cells| < TWO32
  {
    match e
    case FinishSend => l.tx.idle && l.tx.head != l.tx.tail
    case TcInterrupt => !(l.tx.chainPending && l.tx.kickHead % |l.tx.cells| > 0) && l.tx.head != l.tx.kickHead
    case _ => false
  }

  predicate GoodEvent(l: Line, e: Event)
    requires 0 < |l.tx.cells| < TWO32
  {
    Enabled(l, e) && Kicks(l, e) ==>
      GoodKick(if e.TcInterrupt? then l.tx.(tail := l.tx.kickHead) else l.tx)
  }

  function Next(l: Line, e: Event): Line
    requires 0 < |l.tx.cells| < TWO32
  {
    if !Enabled(l, e) then l
    else
      var c := |l.tx.cells|;
      match e
      case PutBytes(data) =>
        l.(tx := Put(l.tx, data), sending := true, accepted := l.accepted + data[..Min(|data|, Free(l.tx))])
      case FinishSend =>
        l.(tx := KickIfIdle(l.tx), sending := false, kicked := if Kicks(l, e) then |l.accepted| else l.kicked)
      case DmaByte =>
        var d := l.tx.dma;
        l.(tx := l.tx.(dma := d.(done := d.done + 1)), wire := l.wire + [l.tx.cells[d.start + d.done]])
      case TcInterrupt =>
        l.(tx := TransferComplete(l.tx),
           confirmed := if l.tx.chainPending && l.tx.kickHead % c > 0
                        then NextLap(l.confirmed, c) else l.kicked,
           kicked := if Kicks(l, e) then |l.accepted| else l.kicked)
  }

  ghost predicate Sound(l: Line) {
    var t, c, n := l.tx, |l.tx.cells|, |l.accepted|;
    && Capacity(c)
    && l.confirmed <= n <= l.confirmed + c
    && t.head == Wrap32(n) && t.tail == Wrap32(l.confirmed)
    // no accepted byte is overwritten before its transmission is confirmed
    && (forall k :: l.confirmed <= k < n ==> t.cells[k % c] == l.accepted[k])
    && (t.idle ==>
          && t.dma.Off? && l.wire == l.accepted[..l.confirmed]
          && (l.sending || l.confirmed == n))
    && (!t.idle ==> Transmitting(l))
  }

  ghost predicate Transmitting(l: Line)
    requires |l.tx.cells| > 0
  {
    var t, c := l.tx, |l.tx.cells|;
    && t.dma.Busy? && l.confirmed < l.kicked <= |l.accepted| && t.kickHead == Wrap32(l.kicked)
    && t.dma.start == l.confirmed % c && t.dma.start + t.dma.len <= c && t.dma.done <= t.dma.len
    && l.confirmed + t.dma.len <= l.kicked
    && l.wire == l.accepted[..l.confirmed + t.dma.done]
    && (!t.chainPending ==> l.confirmed + t.dma.len == l.kicked)
    && (t.chainPending ==>
          && t.dma.start + t.dma.len == c && Wrap32(l.confirmed + t.dma.len) == 0
          && l.kicked - (l.confirmed + t.dma.len) == t.kickHead == t.kickHead % c > 0)
  }

  // A good kick of a sound, stopped channel.
  lemma KickTransmits(l: Line, t: Tx)
    requires Sound(l.(tx := t.(idle := true, dma := Off), sending := true)) && t.dma.Off?
    requires l.wire == l.accepted[..l.confirmed]
    requires t.head != t.tail && GoodKick(t)
    ensures 0 < |t.cells| < TWO32
    ensures Sound(l.(tx := Kick(t), kicked := |l.accepted|))
  {
    hide Wrap32, Sub32, GoodKick;
    var n := |l.accepted|;
    EqualIndices(n, l.confirmed);
    KickFitsIff(t, l.confirmed, n);
    WrapThenSlot(l.confirmed, |t.cells|);
    assert l.accepted[..l.confirmed + 0] == l.accepted[..l.confirmed];
    if t.tail > t.head {
      RawWrap(t, l.confirmed, n);
    } else {
      PlainDifference(n, l.confirmed);
    }
  }

  lemma PlainDifference(a: nat, b: nat)
    requires 0 <= a - b < TWO32 && Wrap32(a) >= Wrap32(b)
    ensures Wrap32(a) - Wrap32(b) == a - b
  {
  }

  lemma StoreAppends(t: Tx, confirmed: nat, accepted: seq<byte>, data: seq<byte>)
    requires Capacity(|t.cells|) && confirmed <= |accepted| && |accepted| + |data| <= confirmed + |t.cells|
    requires t.head == Wrap32(|accepted|)
    requires forall k :: confirmed <= k < |accepted| ==> t.cells[k % |t.cells|] == accepted[k]
    ensures 0 <= t.head % |t.cells| < |t.cells|
    ensures var cells, all := Store(t.cells, t.head % |t.cells|, data), accepted + data;
            forall k :: confirmed <= k < |all| ==> cells[k % |t.cells|] == all[k]
  {
    hide Wrap32;
    var c, n := |t.cells|, |accepted|;
    WrapThenSlot(n, c);
    var cells, all := Store(t.cells, t.head % c, data), accepted + data;
    forall k | confirmed <= k < |all|
      ensures cells[k % c] == all[k]
    {
      SlotOf(n, k, c);
    }
  }

  lemma PutKeepsSound(l: Line, data: seq<byte>)
    requires Sound(l) && Enabled(l, PutBytes(data))
    ensures 0 < |l.tx.cells| < TWO32 && Sound(Next(l, PutBytes(data)))
  {
    hide Wrap32, Add32, Sub32, Store;
    var t, c, n := l.tx, |l.tx.cells|, |l.accepted|;
    Sub32Exact(n, l.confirmed);
    WrapSmall(c - (n - l.confirmed));
    var m := Min(|data|, Free(t));
    Add32Exact(n, m);
    StoreAppends(t, l.confirmed, l.accepted, data[..m]);
    var u := Next(l, PutBytes(data));
    assert u.accepted == l.accepted + data[..m];
    if t.idle {
      assert u.accepted[..l.confirmed] == l.accepted[..l.confirmed];
    } else {
      assert u.accepted[..l.confirmed + t.dma.done] == l.accepted[..l.confirmed + t.dma.done];
    }
  }

  lemma FinishKeepsSound(l: Line)
    requires Sound(l) && l.sending
    requires 0 < |l.tx.cells| < TWO32 && GoodEvent(l, FinishSend)
    ensures Sound(Next(l, FinishSend))
  {
    EqualIndices(|l.accepted|, l.confirmed);
    if Kicks(l, FinishSend) {
      assert l.tx.(idle := true, dma := Off) == l.tx && l.(tx := l.tx, sending := true) == l;
      KickTransmits(l, l.tx);
    }
  }

  lemma DmaByteKeepsSound(l: Line)
    requires Sound(l) && Enabled(l, DmaByte)
    ensures 0 < |l.tx.cells| < TWO32 && Sound(Next(l, DmaByte))
  {
    hide Wrap32;
    var t, c := l.tx, |l.tx.cells|;
    var k := l.confirmed + t.dma.done;
    SlotAfterIs(l.confirmed, t.dma.done, c);
    assert t.cells[k % c] == l.accepted[k];
    assert l.accepted[..k + 1] == l.accepted[..k] + [l.accepted[k]];
  }

  lemma TcKeepsSound(l: Line)
    requires Sound(l) && Enabled(l, TcInterrupt)
    requires 0 < |l.tx.cells| < TWO32 && GoodEvent(l, TcInterrupt)
    ensures Sound(Next(l, TcInterrupt))
  {
    var t, c := l.tx, |l.tx.cells|;
    if t.chainPending {
      ChainKeepsSound(l);
    } else {
      var u := t.(chainPending := false, tail := t.kickHead, dma := Off);
      EqualIndices(|l.accepted|, l.kicked);
      var m := l.(tx := u, confirmed := l.kicked);
      if u.head != u.tail {
        KickTransmits(m, u);
        assert Next(l, TcInterrupt) == m.(tx := Kick(u), kicked := |l.accepted|);
        SoundForSender(m.(tx := Kick(u), kicked := |l.accepted|), l.sending);
      }
    }
  }

  lemma SoundForSender(l: Line, sending: bool)
    requires Sound(l) && !l.tx.idle
    ensures Sound(l.(sending := sending))
  {
    hide Wrap32, Capacity;
  }

  // The tail after the first segment of two: the position at which the 32-bit index wraps.
  lemma ChainedTailIs(t: Tx, confirmed: nat, next: nat)
    requires Capacity(|t.cells|) && t.tail == Wrap32(confirmed)
    requires next == NextLap(confirmed, |t.cells|) && Wrap32(next) == 0
    ensures ChainedTail(t) == 0 && next % |t.cells| == 0
  {
    var c := |t.cells|;
    WrapThenSlot(confirmed, c);
    WrapThenSlot(next, c);
    DivModUnique(0, c, 0, 0);
    var d, e := confirmed / TWO32, next / TWO32;
    assert confirmed == d * TWO32 + t.tail && next == e * TWO32;
    var q := t.tail - t.tail % c + c;
    assert q == (e - d) * TWO32;
    DivModUnique(q, TWO32, e - d, 0);
  }

  lemma ChainKeepsSound(l: Line)
    requires Sound(l) && Enabled(l, TcInterrupt) && l.tx.chainPending
    ensures 0 < |l.tx.cells| < TWO32 && Sound(Next(l, TcInterrupt))
  {
    hide Wrap32, ChainedTail;
    var t, c := l.tx, |l.tx.cells|;
    var next := l.confirmed + t.dma.len;
    assert next == NextLap(l.confirmed, c);
    ChainedTailIs(t, l.confirmed, next);
    assert l.accepted[..next + 0] == l.accepted[..next];
  }

  function Run(l: Line, events: seq<Event>): Line
    requires 0 < |l.tx.cells| < TWO32
    decreases |events|
  {
    if events == [] then l else Run(Next(l, events[0]), events[1..])
  }

  /** No event of the run performs a kick of a straddling region. */
  predicate AllKicksGood(l: Line, events: seq<Event>)
    requires 0 < |l.tx.cells| < TWO32
    decreases |events|
  {
    events == [] || (GoodEvent(l, events[0]) && AllKicksGood(Next(l, events[0]), events[1..]))
  }

  function Opened(cells: seq<byte>): Line {
    Line(Tx(cells, 0, 0, 0, false, true, Off), false, [], [], 0, 0)
  }

  lemma NextKeepsSound(l: Line, e: Event)
    requires Sound(l) && 0 < |l.tx.cells| < TWO32 && GoodEvent(l, e)
    ensures Sound(Next(l, e)) && 0 < |Next(l, e).tx.cells| < TWO32
  {
    hide Sound;
    if Enabled(l, e) {
      match e
      case PutBytes(data) => PutKeepsSound(l, data);
      case FinishSend => FinishKeepsSound(l);
      case DmaByte => DmaByteKeepsSound(l);
      case TcInterrupt => TcKeepsSound(l);
    }
    SoundHasStorage(Next(l, e));
  }

  lemma SoundHasStorage(l: Line)
    requires Sound(l)
    ensures 0 < |l.tx.cells| < TWO32
  {
  }

  lemma {:induction false} RunKeepsSound(l: Line, events: seq<Event>)
    requires Sound(l) && 0 < |l.tx.cells| < TWO32 && AllKicksGood(l, events)
    ensures Sound(Run(l, events))
    decreases |events|
  {
    hide Sound, Next;
    if events != [] {
      NextKeepsSound(l, events[0]);
      RunKeepsSound(Next(l, events[0]), events[1..]);
    }
  }

  /** Over every interleaving of sends, DMA transfers and interrupts in which no kick straddles:
      what goes over the wire is what was accepted, once and in order; accepted bytes are not
      overwritten before they are sent; and pending bytes with no send in progress mean that
      the DMA channel is running. */
  lemma EveryAcceptedByteOnce(cells: seq<byte>, events: seq<Event>)
    requires Capacity(|cells|) && AllKicksGood(Opened(cells), events)
    ensures var l := Run(Opened(cells), events);
            && l.wire <= l.accepted
            && (l.tx.idle && !l.sending ==> l.wire == l.accepted)
            && (l.wire != l.accepted && !l.sending ==> l.tx.dma.Busy?)
            && Sound(l)
  {
    RunKeepsSound(Opened(cells), events);
  }

  // ---- what is accepted, and that it is sent ----

  /** A send accepts as many bytes of its data as the bytes not yet confirmed leave room for, from
      the first on. */
  lemma AcceptsWhatFits(l: Line, data: seq<byte>)
    requires Sound(l) && Enabled(l, PutBytes(data))
    ensures 0 < |l.tx.cells| < TWO32 && 0 <= |l.accepted| - l.confirmed <= |l.tx.cells|
    ensures var room, m := |l.tx.cells| - (|l.accepted| - l.confirmed), Next(l, PutBytes(data));
            && m.accepted == l.accepted + (if |data| <= room then data else data[..room])
            && m.wire == l.wire && m.confirmed == l.confirmed && m.sending
  {
    hide Wrap32, Sub32, Store, Transmitting;
    Sub32Exact(|l.accepted|, l.confirmed);
    WrapSmall(|l.tx.cells| - (|l.accepted| - l.confirmed));
    assert data[..|data|] == data;
  }

  predicate OfDma(events: seq<Event>) { forall i :: 0 <= i < |events| ==> events[i].DmaByte? || events[i].TcInterrupt? }

  // What the channel does next.
  function NextOfDma(l: Line): Event {
    if l.tx.dma.Busy? && l.tx.dma.done == l.tx.dma.len then TcInterrupt else DmaByte
  }

  lemma DmaMoves(l: Line)
    requires Sound(l) && !l.sending && !l.tx.idle && 0 < |l.tx.cells| < TWO32
    ensures Enabled(l, NextOfDma(l))
    ensures var m := Next(l, NextOfDma(l));
            && m.accepted == l.accepted && !m.sending
            && |m.wire| == |l.wire| + (if NextOfDma(l).DmaByte? then 1 else 0)
    ensures |l.wire| + (if NextOfDma(l).DmaByte? then 1 else 0) <= |l.accepted|
  {
    hide Wrap32, Kick, NextLap, TransferComplete;
  }

  // With its transfer complete the channel stops or starts a transfer that is not.
  lemma RestartsOrStops(l: Line)
    requires Sound(l) && !l.tx.idle && 0 < |l.tx.cells| < TWO32
    ensures l.tx.dma.Busy? && l.tx.dma.len > 0
    ensures l.tx.dma.done == l.tx.dma.len ==>
              var t := Next(l, TcInterrupt).tx; t.idle || (t.dma.Busy? && t.dma.done == 0)
  {
    hide Wrap32, NextLap, ChainedTail;
  }

  /** Left alone, the channel and its interrupts bring every accepted byte to the wire, unless one of
      the kicks on the way goes past the end of the storage. */
  lemma {:induction false} EverythingIsSent(l: Line) returns (events: seq<Event>)
    requires Sound(l) && !l.sending && 0 < |l.tx.cells| < TWO32
    ensures OfDma(events)
    ensures AllKicksGood(l, events) ==> Run(l, events).wire == l.accepted == Run(l, events).accepted
    decreases |l.accepted| - |l.wire|, !l.tx.idle && NextOfDma(l).TcInterrupt?
  {
    hide Sound, Next, GoodEvent, NextOfDma;
    if l.tx.idle {
      IdleIsDone(l);
      events := [];
    } else {
      var e := NextOfDma(l);
      DmaMoves(l);
      RestartsOrStops(l);
      NextOfDmaIs(l);
      if GoodEvent(l, e) {
        NextKeepsSound(l, e);
        NextOfDmaIs(Next(l, e));
        if e.TcInterrupt? && !Next(l, e).tx.idle {
          RestartsOrStops(Next(l, e));
        }
        var rest := EverythingIsSent(Next(l, e));
        events := [e] + rest;
        assert events[1..] == rest;
      } else {
        events := [e];
      }
    }
  }

  lemma NextOfDmaIs(l: Line)
    ensures NextOfDma(l) == if l.tx.dma.Busy? && l.tx.dma.done == l.tx.dma.len then TcInterrupt else DmaByte
  {
  }

  lemma IdleIsDone(l: Line)
    requires Sound(l) && l.tx.idle && !l.sending
    ensures l.wire == l.accepted
  {
    hide Wrap32;
    assert l.accepted[..|l.accepted|] == l.accepted;
  }

  /** So a send brings its data to the wire behind what was accepted before: all of it if there is
      room, and otherwise as much as there is room for. */
  lemma SendIsTransmitted(l: Line, data: seq<byte>) returns (rest: seq<Event>)
    requires Sound(l) && !l.sending && |data| < TWO32 && 0 < |l.tx.cells| < TWO32
    ensures OfDma(rest) && 0 <= |l.accepted| - l.confirmed <= |l.tx.cells|
    ensures AllKicksGood(l, [PutBytes(data), FinishSend] + rest) ==>
              var room := |l.tx.cells| - (|l.accepted| - l.confirmed);
              Run(l, [PutBytes(data), FinishSend] + rest).wire ==
                l.accepted + (if |data| <= room then data else data[..room])
  {
    hide Sound, Next, GoodEvent, Enabled, Kicks;
    assert Enabled(l, PutBytes(data)) by { PutIsEnabled(l, data); }
    AcceptsWhatFits(l, data);
    var m := Next(l, PutBytes(data));
    PutIsGood(l, data);
    NextKeepsSound(l, PutBytes(data));
    rest := [];
    if GoodEvent(m, FinishSend) {
      NextKeepsSound(m, FinishSend);
      Finishes(m);
      rest := EverythingIsSent(Next(m, FinishSend));
    }
    var events := [PutBytes(data), FinishSend] + rest;
    FirstEvent(l, PutBytes(data), [FinishSend] + rest);
    FirstEvent(m, FinishSend, rest);
    assert events == [PutBytes(data)] + ([FinishSend] + rest);
  }

  lemma FirstEvent(l: Line, e: Event, rest: seq<Event>)
    requires 0 < |l.tx.cells| < TWO32
    ensures Run(l, [e] + rest) == Run(Next(l, e), rest)
    ensures AllKicksGood(l, [e] + rest) <==> GoodEvent(l, e) && AllKicksGood(Next(l, e), rest)
  {
    hide Next, GoodEvent;
    assert ([e] + rest)[1..] == rest;
  }

  lemma PutIsEnabled(l: Line, data: seq<byte>)
    requires !l.sending && |data| < TWO32
    ensures Enabled(l, PutBytes(data))
  {
  }

  lemma PutIsGood(l: Line, data: seq<byte>)
    requires 0 < |l.tx.cells| < TWO32
    ensures GoodEvent(l, PutBytes(data))
  {
  }

  lemma Finishes(l: Line)
    requires l.sending && 0 < |l.tx.cells| < TWO32
    ensures !Next(l, FinishSend).sending && Next(l, FinishSend).accepted == l.accepted
  {
    hide KickIfIdle;
  }

  // ---- no other runs stay inside the storage ----

  /** Every segment the run hands to the DMA channel lies inside the storage. */
  ghost predicate AllFit(l: Line, events: seq<Event>)
    requires 0 < |l.tx.cells| < TWO32
    decreases |events|
  {
    events == [] || (Fits(Next(l, events[0]).tx) && AllFit(Next(l, events[0]), events[1..]))
  }

  lemma BadKickLeaves(l: Line, t: Tx, tail: nat)
    requires Pending(t, tail, |l.accepted|) && !GoodKick(t)
    ensures 0 < |t.cells| < TWO32 && !Fits(Kick(t))
  {
    KickFitsIff(t, tail, |l.accepted|);
  }

  lemma EventFitsIff(l: Line, e: Event)
    requires Sound(l) && 0 < |l.tx.cells| < TWO32
    ensures Fits(Next(l, e).tx) <==> GoodEvent(l, e)
  {
    hide Wrap32, Sub32, GoodKick, Kick;
    if GoodEvent(l, e) {
      NextKeepsSound(l, e);
      SoundFits(Next(l, e));
    } else if e.FinishSend? {
      EqualIndices(|l.accepted|, l.confirmed);
      BadKickLeaves(l, l.tx, l.confirmed);
    } else {
      var u := l.tx.(chainPending := false, tail := l.tx.kickHead, dma := Off);
      EqualIndices(|l.accepted|, l.kicked);
      SameKick(l.tx.(tail := l.tx.kickHead), u);
      BadKickLeaves(l, u, l.kicked);
    }
  }

  lemma SoundFits(l: Line)
    requires Sound(l)
    ensures Fits(l.tx)
  {
  }

  lemma SameKick(t: Tx, u: Tx)
    requires 0 < |t.cells| < TWO32 && t.cells == u.cells && t.head == u.head && t.tail == u.tail
    ensures GoodKick(t) == GoodKick(u)
  {
  }

  /** Over a run, every segment handed to the DMA channel lies inside the storage exactly if every
      kick is good; so the guard of the run theorem excludes no run that stays inside. */
  lemma {:induction false} AllFitIff(l: Line, events: seq<Event>)
    requires Sound(l) && 0 < |l.tx.cells| < TWO32
    ensures AllFit(l, events) <==> AllKicksGood(l, events)
    decreases |events|
  {
    hide Sound, Next, GoodEvent, Fits;
    if events != [] {
      EventFitsIff(l, events[0]);
      if GoodEvent(l, events[0]) {
        NextKeepsSound(l, events[0]);
        AllFitIff(Next(l, events[0]), events[1..]);
      }
    }
  }

  /** Without the guard the property fails: with a storage of four bytes, three bytes sent and
      three more accepted make a kick that runs two bytes past the end of the storage. */
  lemma StraddlingKick(cells: seq<byte>, a: byte)
    requires |cells| == 4
    ensures var l := Run(Opened(cells), [PutBytes([a, a, a]), FinishSend, DmaByte, DmaByte, DmaByte, TcInterrupt,
                                         PutBytes([a, a, a])]);
            && 0 < |l.tx.cells| < TWO32
            && Enabled(l, FinishSend) && !GoodEvent(l, FinishSend)
            && Next(l, FinishSend).tx.dma == Busy(3, 3, 0)
  {
    hide Next, Enabled, GoodEvent, Kicks;
    var l0 := Opened(cells);
    var l1 := AcceptThree(l0, 0, a);
    var l2 := l1.(sending := false, kicked := 3,
                  tx := l1.tx.(kickHead := 3, idle := false, dma := Busy(0, 3, 0)));
    KicksThree(l1, l2);
    var l3, l4, l5 := Sent(l2, 1), Sent(l2, 2), Sent(l2, 3);
    OneByte(l2, 0);
    OneByte(l2, 1);
    OneByte(l2, 2);
    var l6 := l5.(confirmed := 3, tx := l5.tx.(tail := 3, idle := true, dma := Off));
    AllSent(l5, l6);
    var l7 := AcceptThree(l6, 3, a);
    KicksPastTheEnd(l7);
    RunOfSeven(l0, l1, l2, l3, l4, l5, l6, l7, a);
  }

  lemma AcceptThree(l: Line, n: nat, a: byte) returns (m: Line)
    requires |l.tx.cells| == 4 && l.tx.head == l.tx.tail == n <= 3 && !l.sending
    ensures |m.tx.cells| == 4
    ensures m == l.(tx := l.tx.(cells := m.tx.cells, head := n + 3), sending := true,
                    accepted := l.accepted + [a, a, a])
    ensures m == Next(l, PutBytes([a, a, a]))
  {
    hide Store;
    assert Free(l.tx) == 4;
    assert [a, a, a][..3] == [a, a, a];
    m := Next(l, PutBytes([a, a, a]));
  }

  lemma KicksThree(l: Line, m: Line)
    requires |l.tx.cells| == 4 && l.tx.head == 3 && l.tx.tail == 0 && l.tx.idle && l.sending && |l.accepted| == 3
             && !l.tx.chainPending
    requires m == l.(sending := false, kicked := 3, tx := l.tx.(kickHead := 3, idle := false, dma := Busy(0, 3, 0)))
    ensures m == Next(l, FinishSend)
  {
  }

  // The line after d of the three bytes have been transmitted.
  function Sent(l: Line, d: nat): Line
    requires |l.tx.cells| == 4 && d <= 3
  {
    l.(wire := l.wire + l.tx.cells[..d], tx := l.tx.(dma := Busy(0, 3, d)))
  }

  lemma OneByte(l: Line, d: nat)
    requires |l.tx.cells| == 4 && d < 3 && l.tx.dma == Busy(0, 3, 0)
    ensures Sent(l, 0) == l && Next(Sent(l, d), DmaByte) == Sent(l, d + 1)
  {
    assert l.wire + l.tx.cells[..0] == l.wire;
    assert l.tx.cells[..d + 1] == l.tx.cells[..d] + [l.tx.cells[d]];
    assert Sent(l, d).wire + [l.tx.cells[d]] == l.wire + l.tx.cells[..d + 1];
  }

  lemma AllSent(l: Line, m: Line)
    requires |l.tx.cells| == 4 && l.tx.dma == Busy(0, 3, 3) && l.tx.head == l.tx.kickHead == 3 && l.kicked == 3
    requires !l.tx.chainPending && m == l.(confirmed := 3, tx := l.tx.(tail := 3, idle := true, dma := Off))
    ensures m == Next(l, TcInterrupt)
  {
  }

  lemma KicksPastTheEnd(l: Line)
    requires |l.tx.cells| == 4 && l.tx.head == 6 && l.tx.tail == 3 && l.tx.idle && l.sending
    ensures Enabled(l, FinishSend) && !GoodEvent(l, FinishSend) && Next(l, FinishSend).tx.dma == Busy(3, 3, 0)
  {
  }

  lemma RunOfSeven(l0: Line, l1: Line, l2: Line, l3: Line, l4: Line, l5: Line, l6: Line, l7: Line,
                                      a: byte)
    requires forall l | l in {l0, l1, l2, l3, l4, l5, l6, l7} :: 0 < |l.tx.cells| < TWO32
    requires l1 == Next(l0, PutBytes([a, a, a])) && l2 == Next(l1, FinishSend)
    requires l3 == Next(l2, DmaByte) && l4 == Next(l3, DmaByte) && l5 == Next(l4, DmaByte)
    requires l6 == Next(l5, TcInterrupt) && l7 == Next(l6, PutBytes([a, a, a]))
    ensures Run(l0, [PutBytes([a, a, a]), FinishSend, DmaByte, DmaByte, DmaByte, TcInterrupt,
                     PutBytes([a, a, a])]) == l7
  {
    hide Next;
    assert Run(l7, []) == l7;
    assert Run(l6, [PutBytes([a, a, a])]) == Run(l7, []);
    assert Run(l5, [TcInterrupt, PutBytes([a, a, a])]) == l7;
    assert Run(l4, [DmaByte, TcInterrupt, PutBytes([a, a, a])]) == l7;
    assert Run(l3, [DmaByte, DmaByte, TcInterrupt, PutBytes([a, a, a])]) == l7;
    assert Run(l2, [DmaByte, DmaByte, DmaByte, TcInterrupt, PutBytes([a, a, a])]) == l7;
    assert Run(l1, [FinishSend, DmaByte, DmaByte, DmaByte, TcInterrupt, PutBytes([a, a, a])]) == l7;
  }

  // ---- the driver ----

  /** The send half of uart_dma_handle and the DMA channel it is paired with. */
  class Transmitter {
    var ring: RingBuffer
    var kickHead: u32
    var chainPending: bool
    var idle: bool
    // The DMA channel.
    var dma: Dma
    // The byte count at the last kick.
    ghost var kicked: nat

    ghost predicate Valid()
      reads this, ring
    {
      && ring.Valid()
      && (idle ==> dma.Off?)
      && (dma.Busy? ==> ring.read < kicked <= ring.written && kickHead == Wrap32(kicked))
      && (dma.Busy? && chainPending ==>
            var next := NextLap(ring.read, ring.capacity);
            Wrap32(next) == 0 && next <= kicked)
    }

    ghost function View(): Tx
      requires Valid()
      reads this, ring, ring.buffer
    {
      Tx(ring.buffer[..], ring.head, ring.tail, kickHead, chainPending, idle, dma)
    }

    constructor (storage: array<byte>)
      requires Capacity(storage.Length)
      ensures Valid() && fresh(ring) && ring.buffer == storage
      ensures View() == Opened(storage[..]).tx
    {
      ring := new RingBuffer(storage);
      kickHead, chainPending, idle := 0, false, true;
      dma, kicked := Off, 0;
    }

    method TxKick()
      requires Valid() && dma.Off?
      modifies this
      ensures Valid() && ring == old(ring) && View() == Kick(old(View()))
    {
      hide Wrap32;
      EqualIndices(ring.written, ring.read);
      var head, tail := ring.head, ring.tail;
      if head == tail {
        idle := true;
        return;
      }
      kickHead := head;
      kicked := ring.written;
      idle := false;
      var ti := tail % ring.capacity;
      var hi := head % ring.capacity;
      if tail < head {
        chainPending := false;
        dma := Busy(ti, head - tail, 0);
      } else {
        RawWrap(View(), ring.read, ring.written);
        var seg1 := ring.capacity - ti;
        chainPending := hi > 0;
        dma := Busy(ti, seg1, 0);
      }
    }

    /** uart_dma_send, with no interrupt in between. */
    method Send(data: seq<byte>) returns (n: u32)
      requires Valid() && |data| < TWO32
      modifies this, ring`head, ring`written, ring.buffer
      ensures Valid() && n == Min(|data|, ring.capacity - |old(ring.Contents())|)
      ensures ring == old(ring) && ring.Contents() == old(ring.Contents()) + data[..n]
      ensures View() == if |data| == 0 then old(View()) else KickIfIdle(Put(old(View()), data))
    {
      hide Wrap32, Unroll, Kick;
      if |data| == 0 {
        return 0;
      }
      ghost var before := View();
      Sub32Exact(ring.written, ring.read);
      WrapSmall(ring.capacity - (ring.written - ring.read));
      n := ring.Put(data);
      Add32Exact(old(ring.written), n);
      assert View().cells == Put(before, data).cells;
      EqualIndices(ring.written, ring.read);
      var empty := ring.IsEmpty();
      if idle && !empty {
        TxKick();
      }
    }

    // The first branch of on_tx_tc: the first of two segments is done.
    method ChainSecond() returns (started: bool)
      requires Valid() && dma.Off? && !idle && chainPending && ring.read < kicked <= ring.written
               && kickHead == Wrap32(kicked)
      requires var next := NextLap(ring.read, ring.capacity);
               Wrap32(next) == 0 && next <= kicked
      modifies this`chainPending, this`dma, ring`tail, ring`read
      ensures ring.Valid() && !chainPending && (started <==> kickHead % ring.capacity > 0)
      ensures started ==> Valid() && View() == TransferComplete(old(View()))
      ensures !started ==> Valid() && dma.Off? && ring.read <= kicked
    {
      hide Wrap32, Kick, NextLap, Unroll;
      chainPending := false;
      var end := ring.capacity;
      ghost var next := NextLap(ring.read, end);
      NextLapIs(ring.read, end);
      ChainedTailIs(View(), ring.read, next);
      ring.tail := Wrap32(NextLap(ring.tail, end));
      WrapSmall(0);
      ring.read := next;
      if ring.tail > kickHead {
        ring.tail := kickHead;
      }
      var s2 := kickHead % end;
      started := s2 > 0;
      if started {
        ChainedKickIsAhead(kicked, next, end);
        dma := Busy(0, s2, 0);
      }
    }

    /** on_tx_tc. */
    method OnTxTc()
      requires Valid() && dma.Busy?
      modifies this, ring`tail, ring`read
      ensures Valid() && View() == TransferComplete(old(View()))
    {
      hide Wrap32, Kick, ChainedTail, NextLap, Unroll;
      dma := Off;
      if chainPending {
        DmaDoesNotMatter(View(), old(dma));
        var started := ChainSecond();
        if started {
          return;
        }
      }
      ring.tail := kickHead;
      ring.read := kicked;
      EqualIndices(ring.written, ring.read);
      if ring.head != ring.tail {
        TxKick();
      } else {
        idle := true;
      }
    }
  }

  lemma DmaDoesNotMatter(t: Tx, dma: Dma)
    requires 0 < |t.cells| < TWO32
    ensures TransferComplete(t.(dma := dma)) == TransferComplete(t)
  {
  }

  lemma ChainedKickIsAhead(kicked: nat, next: nat, c: int)
    requires Capacity(c) && next <= kicked && Wrap32(next) == 0 && Wrap32(kicked) % c > 0
    ensures next < kicked
  {
    DivModUnique(0, c, 0, 0);
  }
}
