// The receive path end to end: DMA channel, rx_update, the drain loop of the UART task, the
// frame parser with its timeout timer, and dispatch.
module RxPipeline {
  import opened Words
  import opened RingBuffers
  import opened UartRx
  import opened Crc8
  import opened Frames
  import opened Parsers

  /** The shared state and three histories: the bytes that have arrived, how many of them the
      driver has seen and the task has taken, and the frames dispatched. */
  datatype Link = Link(
    rx: Rx, parser: Parser, lastTick: u32,
    arrived: seq<byte>, seen: nat, taken: nat, dispatched: seq<Frame>)

  datatype Event =
    | ByteArrives(b: byte)        // the DMA channel
    | Interrupt                   // half transfer, transfer complete or line idle: rx_update
    | DrainByte(tick: u32)        // one iteration of the loop in vUartRxTask
    | TimeoutCheck(tick: u32)     // vFrameTimeoutTimerCallback

  function Next(l: Link, e: Event): Link
    requires 1 <= l.rx.prev <= |l.rx.cells| < TWO32 && 1 <= l.rx.cndtr <= |l.rx.cells|
  {
    match e
    case ByteArrives(b) => l.(rx := Arrive(l.rx, b), arrived := l.arrived + [b])
    case Interrupt =>
      l.(rx := Update(l.rx), seen := |l.arrived|, taken := Max(l.taken, |l.arrived| - |l.rx.cells|))
    case DrainByte(tick) =>
      var (rx, bytes) := Take(l.rx);
      if bytes == [] then l
      else
        var (p, o) := Step(false, l.parser, bytes[0]);
        l.(rx := rx, parser := p, lastTick := tick, taken := l.taken + 1, dispatched := l.dispatched + Emitted(o))
    case TimeoutCheck(tick) =>
      if l.parser.Wait? then l.(lastTick := tick)
      else if Sub32(tick, l.lastTick) >= FRAME_BYTE_TIMEOUT_MS then l.(parser := Wait)
      else l
  }

  /** The event overruns neither the driver nor the reader. */
  predicate InTime(l: Link, e: Event) {
    e.ByteArrives? ==>
      |l.arrived| + 1 - l.seen < |l.rx.cells| && |l.arrived| + 1 - l.taken <= |l.rx.cells|
  }

  /** The event is a timer callback that comes five ticks or more after the last byte of a frame that
      is not complete. */
  predicate Late(l: Link, e: Event) { e.TimeoutCheck? && !l.parser.Wait? && Sub32(e.tick, l.lastTick) >= 5 }

  /** The event is neither an overrun nor a byte timeout. */
  predicate Undisturbed(l: Link, e: Event) { InTime(l, e) && !Late(l, e) }

  function Run(l: Link, events: seq<Event>): Link
    requires 1 <= l.rx.prev <= |l.rx.cells| < TWO32 && 1 <= l.rx.cndtr <= |l.rx.cells|
    decreases |events|
  {
    if events == [] then l else NextKeepsCounters(l, events[0]); Run(Next(l, events[0]), events[1..])
  }

  lemma NextKeepsCounters(l: Link, e: Event)
    requires 1 <= l.rx.prev <= |l.rx.cells| < TWO32 && 1 <= l.rx.cndtr <= |l.rx.cells|
    ensures var r := Next(l, e).rx; 1 <= r.prev <= |r.cells| < TWO32 && 1 <= r.cndtr <= |r.cells|
  {
    hide Step;
  }

  predicate AllUndisturbed(l: Link, events: seq<Event>)
    requires 1 <= l.rx.prev <= |l.rx.cells| < TWO32 && 1 <= l.rx.cndtr <= |l.rx.cells|
    decreases |events|
  {
    events == [] ||
    (NextKeepsCounters(l, events[0]);
     Undisturbed(l, events[0]) && AllUndisturbed(Next(l, events[0]), events[1..]))
  }

  function Opened(cells: seq<byte>): Link
    requires 0 < |cells| < TWO32
  {
    Link(Rx(cells, 0, 0, |cells|, |cells|), Wait, 0, [], 0, 0, [])
  }

  predicate AllInTime(l: Link, events: seq<Event>)
    requires 1 <= l.rx.prev <= |l.rx.cells| < TWO32 && 1 <= l.rx.cndtr <= |l.rx.cells|
    decreases |events|
  {
    events == [] ||
    (NextKeepsCounters(l, events[0]);
     InTime(l, events[0]) && AllInTime(Next(l, events[0]), events[1..]))
  }

  /** The ring tracks the arrivals, no unread byte is lost, and since the parser was reset at position
      from, with the frames before dispatched, it has seen the bytes taken. */
  ghost predicate FaithfulSince(l: Link, from: nat, before: seq<Frame>) {
    && Tracks(l.rx, l.arrived, l.seen, l.taken)
    && |l.arrived| - l.seen < |l.rx.cells|
    && |l.arrived| <= l.taken + |l.rx.cells|
    && from <= l.taken
    && l.parser == Parsers.Run(false, Wait, l.arrived[from..l.taken]).0
    && l.dispatched == before + Parsers.Run(false, Wait, l.arrived[from..l.taken]).1
  }

  /** No timeout has reset the parser since the start. */
  ghost predicate Faithful(l: Link) { FaithfulSince(l, 0, []) }

  lemma DrainKeepsFaithful(l: Link, tick: u32, from: nat, before: seq<Frame>)
    requires FaithfulSince(l, from, before)
    ensures 1 <= l.rx.prev <= |l.rx.cells| < TWO32 && 1 <= l.rx.cndtr <= |l.rx.cells|
    ensures FaithfulSince(Next(l, DrainByte(tick)), from, before)
  {
    hide Tracks, Take, Step, Parsers.Run;
    TracksBounds(l.rx, l.arrived, l.seen, l.taken);
    TakeTracks(l.rx, l.arrived, l.seen, l.taken);
    SeenHasArrived(l);
    if l.taken < l.seen {
      var b := l.arrived[l.taken];
      assert l.arrived[from..l.taken + 1] == l.arrived[from..l.taken] + [b];
      RunAppend(false, Wait, l.arrived[from..l.taken], [b]);
      RunOfOne(false, l.parser, b);
      assert |Take(l.rx).0.cells| == |l.rx.cells| by { TakeKeepsCells(l.rx); }
    }
  }

  lemma SeenHasArrived(l: Link)
    requires Tracks(l.rx, l.arrived, l.seen, l.taken)
    ensures l.taken <= l.seen <= |l.arrived|
  {
  }

  lemma TakeKeepsCells(s: Rx)
    requires |s.cells| > 0
    ensures Take(s).0.cells == s.cells
  {
  }

  /** Every event that overruns nothing keeps that; a late timer callback resets the parser where the
      bytes taken end, and what was dispatched stays. */
  lemma NextKeepsFaithful(l: Link, e: Event, from: nat, before: seq<Frame>)
    requires FaithfulSince(l, from, before) && InTime(l, e)
    ensures 1 <= l.rx.prev <= |l.rx.cells| < TWO32 && 1 <= l.rx.cndtr <= |l.rx.cells|
    ensures if Late(l, e) then FaithfulSince(Next(l, e), l.taken, l.dispatched) && Next(l, e).parser == Wait
            else FaithfulSince(Next(l, e), from, before)
  {
    hide Tracks, Step, Parsers.Run, Arrive, Update;
    TracksBounds(l.rx, l.arrived, l.seen, l.taken);
    SeenHasArrived(l);
    match e
    case ByteArrives(b) =>
      ArriveTracks(l.rx, l.arrived, l.seen, l.taken, b);
      ArriveKeepsSize(l.rx, b);
      assert (l.arrived + [b])[from..l.taken] == l.arrived[from..l.taken];
    case Interrupt =>
      UpdateTracks(l.rx, l.arrived, l.seen, l.taken);
      UpdateKeepsSize(l.rx);
    case DrainByte(tick) =>
      DrainKeepsFaithful(l, tick, from, before);
    case TimeoutCheck(tick) =>
      RunOfNothing(false, Wait);
      assert l.arrived[l.taken..l.taken] == [];
  }

  lemma ArriveKeepsSize(s: Rx, b: byte)
    requires 1 <= s.cndtr <= |s.cells| < TWO32
    ensures |Arrive(s, b).cells| == |s.cells|
  {
  }

  lemma UpdateKeepsSize(s: Rx)
    requires s.prev <= |s.cells| < TWO32 && s.cndtr <= |s.cells|
    ensures |Update(s).cells| == |s.cells|
  {
  }

  lemma {:induction false} RunKeepsFaithful(l: Link, events: seq<Event>, from: nat, before: seq<Frame>)
    requires FaithfulSince(l, from, before)
    requires 1 <= l.rx.prev <= |l.rx.cells| < TWO32 && 1 <= l.rx.cndtr <= |l.rx.cells|
    requires AllUndisturbed(l, events)
    ensures FaithfulSince(Run(l, events), from, before)
    decreases |events|
  {
    hide FaithfulSince, Next, InTime, Late;
    if events != [] {
      NextKeepsCounters(l, events[0]);
      NextKeepsFaithful(l, events[0], from, before);
      RunKeepsFaithful(Next(l, events[0]), events[1..], from, before);
    }
  }

  // Over runs with timeouts there is always a last reset.
  lemma {:induction false} RunKeepsSome(l: Link, events: seq<Event>, from: nat, before: seq<Frame>)
    returns (from2: nat, before2: seq<Frame>)
    requires FaithfulSince(l, from, before)
    requires 1 <= l.rx.prev <= |l.rx.cells| < TWO32 && 1 <= l.rx.cndtr <= |l.rx.cells|
    requires AllInTime(l, events)
    ensures FaithfulSince(Run(l, events), from2, before2)
    decreases |events|
  {
    hide FaithfulSince, Next, InTime, Late;
    from2, before2 := from, before;
    if events != [] {
      NextKeepsCounters(l, events[0]);
      NextKeepsFaithful(l, events[0], from, before);
      if Late(l, events[0]) {
        from2, before2 := RunKeepsSome(Next(l, events[0]), events[1..], l.taken, l.dispatched);
      } else {
        from2, before2 := RunKeepsSome(Next(l, events[0]), events[1..], from, before);
      }
    }
  }

  lemma OpenedIsFaithful(cells: seq<byte>)
    requires Capacity(|cells|)
    ensures Faithful(Opened(cells))
  {
    RunOfNothing(false, Wait);
    RestartTracks(Rx(cells, 0, 0, 0, 0));
    assert Restart(Rx(cells, 0, 0, 0, 0)) == Opened(cells).rx;
  }

  /** End to end: whatever the interleaving of arrivals, interrupts, drain iterations and timer
      callbacks, if the bytes that arrived are some noise ending in a delimiter followed by
      frames, then once the ring is drained exactly those frames have been dispatched whose CRC is
      not 0, in order, behind whatever the noise contained. */
  lemma FramesAreDispatched(cells: seq<byte>, events: seq<Event>, noise: seq<byte>,
                                               frames: seq<Frame>)
    requires Capacity(|cells|) && AllUndisturbed(Opened(cells), events)
    requires noise != [] && noise[|noise| - 1] == DELIMITER
    requires forall i :: 0 <= i < |frames| ==> Sendable(frames[i])
    requires var l := Run(Opened(cells), events);
             l.arrived == noise + WireAll(frames) && l.taken == |l.arrived|
    ensures var l := Run(Opened(cells), events);
            l.dispatched == Parsers.Run(false, Wait, noise).1 + Survivors(frames) && l.parser == Wait
  {
    hide Survivors, WireAll, Parsers.Run, Run, AllUndisturbed, Opened, Tracks;
    OpenedIsFaithful(cells);
    var l := OpenedRun(cells, events);
    FramesArriveAfterNoise(false, Wait, noise, frames);
    assert l.arrived[0..l.taken] == l.arrived;
  }

  /** The same from power-up, where the parser waits and nothing precedes the frames: all of them
      are dispatched exactly if no CRC is 0. */
  lemma FramesAreDispatchedFromStart(cells: seq<byte>, events: seq<Event>, frames: seq<Frame>)
    requires Capacity(|cells|) && AllUndisturbed(Opened(cells), events)
    requires forall i :: 0 <= i < |frames| ==> Sendable(frames[i])
    requires var l := Run(Opened(cells), events); l.arrived == WireAll(frames) && l.taken == |l.arrived|
    ensures Run(Opened(cells), events).dispatched == Survivors(frames)
    ensures Run(Opened(cells), events).dispatched == frames <==>
              forall i :: 0 <= i < |frames| ==> Crc(Payload(frames[i])) != 0
  {
    hide Survivors, WireAll, Parsers.Run, Run, AllUndisturbed, Opened, Tracks;
    var l := OpenedRun(cells, events);
    FramesArrive(false, frames);
    AllSurviveIff(frames);
    assert l.arrived[0..l.taken] == l.arrived;
  }

  lemma OpenedRun(cells: seq<byte>, events: seq<Event>) returns (l: Link)
    requires Capacity(|cells|) && AllUndisturbed(Opened(cells), events)
    ensures l == Run(Opened(cells), events) && Faithful(l)
  {
    OpenedIsFaithful(cells);
    RunKeepsFaithful(Opened(cells), events, 0, []);
    l := Run(Opened(cells), events);
  }

  // ---- after a timeout ----

  lemma {:induction false} CountersKept(l: Link, events: seq<Event>)
    requires 1 <= l.rx.prev <= |l.rx.cells| < TWO32 && 1 <= l.rx.cndtr <= |l.rx.cells|
    ensures var r := Run(l, events).rx; 1 <= r.prev <= |r.cells| < TWO32 && 1 <= r.cndtr <= |r.cells|
    decreases |events|
  {
    hide Next;
    if events != [] {
      NextKeepsCounters(l, events[0]);
      CountersKept(Next(l, events[0]), events[1..]);
    }
  }

  lemma {:induction false} RunJoin(l: Link, a: seq<Event>, b: seq<Event>)
    requires 1 <= l.rx.prev <= |l.rx.cells| < TWO32 && 1 <= l.rx.cndtr <= |l.rx.cells|
    ensures var r := Run(l, a).rx; 1 <= r.prev <= |r.cells| < TWO32 && 1 <= r.cndtr <= |r.cells|
    ensures Run(l, a + b) == Run(Run(l, a), b)
    decreases |a|
  {
    hide Next;
    CountersKept(l, a);
    if a == [] {
      assert a + b == b;
    } else {
      NextKeepsCounters(l, a[0]);
      assert (a + b)[1..] == a[1..] + b;
      RunJoin(Next(l, a[0]), a[1..], b);
    }
  }

  predicate NoneDrained(events: seq<Event>) { forall i :: 0 <= i < |events| ==> !events[i].DrainByte? }

  // While no byte is taken the parser keeps waiting, or the tick of the last byte.
  lemma {:induction false} TickIsKept(l: Link, events: seq<Event>, tick: u32)
    requires 1 <= l.rx.prev <= |l.rx.cells| < TWO32 && 1 <= l.rx.cndtr <= |l.rx.cells|
    requires NoneDrained(events) && (l.parser.Wait? || l.lastTick == tick)
    ensures Run(l, events).parser.Wait? || Run(l, events).lastTick == tick
    decreases |events|
  {
    hide Update, Arrive;
    if events != [] {
      NextKeepsCounters(l, events[0]);
      TickIsKept(Next(l, events[0]), events[1..], tick);
    }
  }

  /** A timer callback five ticks or more after the last byte taken finds the parser waiting, or makes
      it wait. */
  lemma QuietResets(l: Link, t0: u32, quiet: seq<Event>, t: u32)
    requires 1 <= l.rx.prev <= |l.rx.cells| < TWO32 && 1 <= l.rx.cndtr <= |l.rx.cells|
    requires l.rx.head != l.rx.tail && NoneDrained(quiet) && Sub32(t, t0) >= 5
    ensures Run(l, [DrainByte(t0)] + quiet + [TimeoutCheck(t)]).parser == Wait
  {
    hide Step;
    var taken := Next(l, DrainByte(t0));
    NextKeepsCounters(l, DrainByte(t0));
    assert Run(l, [DrainByte(t0)]) == taken by {
      assert [DrainByte(t0)][1..] == [];
    }
    TickIsKept(taken, quiet, t0);
    RunJoin(l, [DrainByte(t0)], quiet);
    RunJoin(l, [DrainByte(t0)] + quiet, [TimeoutCheck(t)]);
    assert [TimeoutCheck(t)][1..] == [];
  }

  // From a waiting parser on, nothing of what came before matters.
  lemma WaitingStartsAgain(l: Link, from: nat, before: seq<Frame>)
    requires FaithfulSince(l, from, before) && l.parser == Wait
    ensures FaithfulSince(l, l.taken, l.dispatched)
  {
    hide Tracks, Parsers.Run;
    SeenHasArrived(l);
    RunOfNothing(false, Wait);
    assert l.arrived[l.taken..l.taken] == [];
    assert l.dispatched + [] == l.dispatched;
  }

  /** End to end with timeouts: whatever came before, timeouts, noise and half a frame included, once
      the timer has come round five ticks or more after the last byte taken, the frames taken from then
      on are dispatched behind what was dispatched, exactly those whose CRC is not 0.  No delimiter
      need precede them. */
  lemma FramesAreDispatchedAfterQuiet(cells: seq<byte>, first: seq<Event>, t0: u32, quiet: seq<Event>, t: u32,
                                      later: seq<Event>, frames: seq<Frame>)
    requires Capacity(|cells|) && NoneDrained(quiet) && Sub32(t, t0) >= 5
    requires AllInTime(Opened(cells), first + ([DrainByte(t0)] + quiet + [TimeoutCheck(t)]))
    requires Run(Opened(cells), first).rx.head != Run(Opened(cells), first).rx.tail
    requires forall i :: 0 <= i < |frames| ==> Sendable(frames[i])
    requires var l := Run(Opened(cells), first + ([DrainByte(t0)] + quiet + [TimeoutCheck(t)]));
             && 1 <= l.rx.prev <= |l.rx.cells| < TWO32 && 1 <= l.rx.cndtr <= |l.rx.cells|
             && AllUndisturbed(l, later) && l.taken <= |l.arrived|
             && Run(l, later).arrived == l.arrived[..l.taken] + WireAll(frames)
             && Run(l, later).taken == |Run(l, later).arrived|
    ensures var l := Run(Opened(cells), first + ([DrainByte(t0)] + quiet + [TimeoutCheck(t)]));
            && Run(l, later).dispatched == l.dispatched + Survivors(frames)
            && Run(l, later).parser == Wait
  {
    hide Survivors, WireAll, Parsers.Run, Run, AllUndisturbed, AllInTime, Opened, Tracks;
    OpenedIsFaithful(cells);
    OpenedCounters(cells);
    var events := first + ([DrainByte(t0)] + quiet + [TimeoutCheck(t)]);
    var l := Run(Opened(cells), events);
    RunJoin(Opened(cells), first, [DrainByte(t0)] + quiet + [TimeoutCheck(t)]);
    QuietResets(Run(Opened(cells), first), t0, quiet, t);
    var from, before := RunKeepsSome(Opened(cells), events, 0, []);
    WaitingStartsAgain(l, from, before);
    RunKeepsFaithful(l, later, l.taken, l.dispatched);
    FramesArrive(false, frames);
    var m := Run(l, later);
    assert m.arrived[l.taken..m.taken] == WireAll(frames);
  }

  lemma OpenedCounters(cells: seq<byte>)
    requires Capacity(|cells|)
    ensures var r := Opened(cells).rx; 1 <= r.prev <= |r.cells| < TWO32 && 1 <= r.cndtr <= |r.cells|
  {
  }

  // ---- everything that has arrived can be taken ----

  predicate OfTask(events: seq<Event>) {
    forall i :: 0 <= i < |events| ==> events[i].Interrupt? || events[i].DrainByte?
  }

  lemma {:induction false} SeenCanBeTaken(l: Link, tick: u32) returns (events: seq<Event>)
    requires Tracks(l.rx, l.arrived, l.seen, l.taken)
    requires 1 <= l.rx.prev <= |l.rx.cells| < TWO32 && 1 <= l.rx.cndtr <= |l.rx.cells|
    ensures OfTask(events) && AllUndisturbed(l, events)
    ensures Run(l, events).arrived == l.arrived && Run(l, events).taken == l.seen
    decreases l.seen - l.taken
  {
    hide Tracks, Take, Step;
    SeenHasArrived(l);
    events := [];
    if l.taken < l.seen {
      TakeTracks(l.rx, l.arrived, l.seen, l.taken);
      var n := Next(l, DrainByte(tick));
      NextKeepsCounters(l, DrainByte(tick));
      var rest := SeenCanBeTaken(n, tick);
      events := [DrainByte(tick)] + rest;
      assert events[1..] == rest;
    }
  }

  /** From every state without overrun one interrupt and enough drain iterations take all that has
      arrived, so that the theorems about drained rings speak of every run that goes on. */
  lemma EverythingCanBeTaken(l: Link, from: nat, before: seq<Frame>, tick: u32) returns (events: seq<Event>)
    requires FaithfulSince(l, from, before)
    requires 1 <= l.rx.prev <= |l.rx.cells| < TWO32 && 1 <= l.rx.cndtr <= |l.rx.cells|
    ensures OfTask(events) && AllUndisturbed(l, events)
    ensures Run(l, events).arrived == l.arrived && Run(l, events).taken == |l.arrived|
  {
    hide Tracks, Update, Parsers.Run;
    NextKeepsFaithful(l, Interrupt, from, before);
    NextKeepsCounters(l, Interrupt);
    var rest := SeenCanBeTaken(Next(l, Interrupt), tick);
    events := [Interrupt] + rest;
    assert events[1..] == rest;
  }

  // ---- the drain loop ----

  lemma OneMoreByte(start: Parser, all: seq<byte>, k: nat)
    requires k < |all|
    ensures var (before, frames) := Parsers.Run(false, start, all[..k]);
            var (after, emitted) := Step(false, before, all[k]);
            Parsers.Run(false, start, all[..k + 1]) ==
              (after, if emitted.Some? then frames + [emitted.value] else frames)
  {
    hide Parsers.Run, Step;
    RunAppend(false, start, all[..k], [all[k]]);
    RunOfOne(false, Parsers.Run(false, start, all[..k]).0, all[k]);
    assert all[..k + 1] == all[..k] + [all[k]];
    var frames := Parsers.Run(false, start, all[..k]).1;
    assert frames + [] == frames;
  }

  // ---- the task, its interrupts and its timer ----

  /** The state of vUartRxTask: the receive half of the driver and the parser. */
  class UartTask {
    const receiver: Receiver
    const parser: FirmwareParser

    ghost predicate Valid()
      reads this, receiver, receiver.ring, parser
    {
      && receiver.Valid() && parser.Valid()
      && receiver.ring.buffer != parser.buf
    }

    constructor (storage: array<byte>)
      requires Capacity(storage.Length)
      ensures Valid() && fresh(receiver) && fresh(receiver.ring) && fresh(parser) && fresh(parser.buf)
      ensures receiver.ring.buffer == storage && parser.View() == Wait
      ensures receiver.ring.Contents() == []
    {
      hide Tracks, Unroll, Wrap32;
      receiver := new Receiver(storage);
      parser := new FirmwareParser();
    }

    /** The task's objects are in the state of the link. */
    ghost predicate Same(l: Link)
      reads this, receiver, receiver.ring, receiver.ring.buffer, parser, parser.buf
    {
      Valid() && receiver.View() == l.rx && parser.View() == l.parser && parser.lastTick == l.lastTick
    }

    /** The hardware stores a byte. */
    method ByteComesIn(b: byte, ghost l: Link)
      requires Same(l)
      modifies receiver`cndtr, receiver.ring.buffer
      ensures 1 <= l.rx.prev <= |l.rx.cells| < TWO32 && 1 <= l.rx.cndtr <= |l.rx.cells|
      ensures Same(Next(l, ByteArrives(b)))
    {
      receiver.DmaStore(b);
    }

    /** The half-transfer, transfer-complete and idle interrupts. */
    method OnInterrupt(ghost l: Link)
      requires Same(l)
      modifies receiver`rxPrevCndtr, receiver.ring
      ensures 1 <= l.rx.prev <= |l.rx.cells| < TWO32 && 1 <= l.rx.cndtr <= |l.rx.cells|
      ensures Same(Next(l, Interrupt))
    {
      receiver.RxUpdate();
    }

    /** vFrameTimeoutTimerCallback. */
    method OnFrameTimer(tick: u32, ghost l: Link)
      requires Same(l)
      modifies parser
      ensures 1 <= l.rx.prev <= |l.rx.cells| < TWO32 && 1 <= l.rx.cndtr <= |l.rx.cells|
      ensures Same(Next(l, TimeoutCheck(tick)))
      ensures Sub32(tick, l.lastTick) >= 5 ==> parser.View() == Wait
      ensures Sub32(tick, l.lastTick) < 5 ==> parser.View() == old(parser.View())
    {
      parser.CheckTimeout(tick);
    }

    /** One iteration of the drain loop, its test included, is the step the run theorem interleaves
        with arrivals, interrupts and timer callbacks. */
    method DrainOne(tick: u32, ghost l: Link) returns (dispatched: seq<Frame>)
      requires Same(l)
      modifies receiver.ring, parser, parser.buf
      ensures 1 <= l.rx.prev <= |l.rx.cells| < TWO32 && 1 <= l.rx.cndtr <= |l.rx.cells|
      ensures Same(Next(l, DrainByte(tick))) && Next(l, DrainByte(tick)).dispatched == l.dispatched + dispatched
    {
      hide Step, Parsers.Run, Wrap32, Add32, Capacity;
      dispatched := [];
      var bytes := receiver.Recv(1);
      TakeOne(l.rx);
      if bytes != [] {
        var done, frame := parser.Feed(bytes[0], tick);
        if done {
          dispatched := [frame];
        }
      }
    }

    /** The drain loop with nothing arriving meanwhile: feed the parser until the ring is empty, each
        byte with the tick of its iteration; returns the frames dispatched. */
    method Drain(ticks: nat -> u32) returns (dispatched: seq<Frame>)
      requires Valid()
      modifies receiver.ring, parser, parser.buf
      ensures Valid() && receiver.ring.Contents() == []
      ensures (parser.View(), dispatched) == Parsers.Run(false, old(parser.View()), old(receiver.ring.Contents()))
      ensures var n := |old(receiver.ring.Contents())|;
              parser.lastTick == if n == 0 then old(parser.lastTick) else ticks(n - 1)
    {
      hide Parsers.Run, Step, Unroll, Wrap32, Capacity;
      dispatched := [];
      ghost var all, start := receiver.ring.Contents(), parser.View();
      var avail := receiver.ring.Available();
      RunOfNothing(false, start);
      var k := 0;
      assert all[..0] == [];
      while avail > 0
        invariant Valid() && receiver.ring == old(receiver.ring) && parser.buf == old(parser.buf)
        invariant 0 <= k <= |all| && receiver.ring.Contents() == all[k..] && avail == |all| - k
        invariant (parser.View(), dispatched) == Parsers.Run(false, start, all[..k])
        invariant parser.lastTick == if k == 0 then old(parser.lastTick) else ticks(k - 1)
        decreases avail
      {
        var bytes := receiver.ring.Get(1);
        assert bytes == [all[k]];
        var done, frame := parser.Feed(bytes[0], ticks(k));
        OneMoreByte(start, all, k);
        if done {
          dispatched := dispatched + [frame];
        }
        k := k + 1;
        avail := receiver.ring.Available();
      }
      assert all[..k] == all;
    }
  }
}
