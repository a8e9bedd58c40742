// The kernel queue: its storage as a bounded deque, and its wake-up protocol with lock counts.
module Queues {
  import opened Words

  datatype Position = Back | Front | Overwrite

  // ---- storage ----

  /** The place after, and the place before, a slot, going round. */
  function NextSlot(k: nat, n: nat): nat { if k + 1 >= n then 0 else k + 1 }

  function PreviousSlot(k: nat, n: nat): nat
    requires n > 0
  {
    if k == 0 then n - 1 else k - 1
  }

  /** The queued items, oldest first: they start behind the slot last read. */
  function Deque<T>(slots: seq<T>, readFrom: nat, count: nat): (s: seq<T>)
    requires readFrom < |slots| && count <= |slots|
    ensures |s| == count
  {
    seq(count, i requires 0 <= i < count => slots[SlotAfter(NextSlot(readFrom, |slots|), i, |slots|)])
  }

  /** Where the next item goes: the slot behind the newest one. */
  function WriteSlot(readFrom: nat, count: nat, n: nat): (w: int)
    requires readFrom < n && count <= n
    ensures 0 <= w < n
  {
    SlotAfter(NextSlot(readFrom, n), count, n)
  }

  lemma WriteSlotIsModular(readFrom: nat, count: nat, n: nat)
    requires readFrom < n && count <= n
    ensures WriteSlot(readFrom, count, n) == (readFrom + 1 + count) % n
  {
    var x := readFrom + 1 + count;
    if x < n {
      DivModUnique(x, n, 0, x);
    } else if x < 2 * n {
      DivModUnique(x, n, 1, x - n);
    } else {
      DivModUnique(x, n, 2, x - 2 * n);
    }
  }

  lemma PushBack<T>(slots: seq<T>, readFrom: nat, count: nat, x: T)
    requires readFrom < |slots| && count < |slots|
    ensures var after := slots[WriteSlot(readFrom, count, |slots|) := x];
            Deque(after, readFrom, count + 1) == Deque(slots, readFrom, count) + [x]
    ensures WriteSlot(readFrom, count + 1, |slots|) == NextSlot(WriteSlot(readFrom, count, |slots|), |slots|)
  {
    var after := slots[WriteSlot(readFrom, count, |slots|) := x];
    forall i | 0 <= i < count + 1
      ensures Deque(after, readFrom, count + 1)[i] == (Deque(slots, readFrom, count) + [x])[i]
    {
    }
  }

  lemma PushFront<T>(slots: seq<T>, readFrom: nat, count: nat, x: T)
    requires readFrom < |slots| && count < |slots|
    ensures var after, r := slots[readFrom := x], PreviousSlot(readFrom, |slots|);
            && Deque(after, r, count + 1) == [x] + Deque(slots, readFrom, count)
            && WriteSlot(r, count + 1, |slots|) == WriteSlot(readFrom, count, |slots|)
  {
    var after, r := slots[readFrom := x], PreviousSlot(readFrom, |slots|);
    forall i | 0 <= i < count + 1
      ensures Deque(after, r, count + 1)[i] == ([x] + Deque(slots, readFrom, count))[i]
    {
    }
  }

  lemma PopFront<T>(slots: seq<T>, readFrom: nat, count: nat)
    requires readFrom < |slots| && 0 < count <= |slots|
    ensures var r := NextSlot(readFrom, |slots|);
            && Deque(slots, readFrom, count) == [slots[r]] + Deque(slots, r, count - 1)
            && WriteSlot(r, count - 1, |slots|) == WriteSlot(readFrom, count, |slots|)
  {
    var r := NextSlot(readFrom, |slots|);
    forall i | 0 <= i < count
      ensures Deque(slots, readFrom, count)[i] == ([slots[r]] + Deque(slots, r, count - 1))[i]
    {
      if i > 0 {
        assert SlotAfter(r, i, |slots|) == SlotAfter(NextSlot(r, |slots|), i - 1, |slots|);
      }
    }
  }

  /** A queue of one slot holds just the item written last. */
  lemma OneSlot<T>(x: T)
    ensures Deque([x], 0, 1) == [x]
  {
  }

  // ---- the wake-up protocol ----

  datatype Side = ToSend | ToReceive

  /** How far a task that is about to block has come while the scheduler is suspended. */
  datatype Phase = Idle | Locked(side: Side) | Seen(side: Side) | Unlocking | UnlockingRx

  const UNLOCKED := -1

  /** Items and length; tasks blocked on either side; tasks woken but not run since; the two lock
      counts, signed bytes of the original; and the phase. */
  datatype State = State(count: nat, length: nat, waitReceive: nat, wokenReceive: nat, waitSend: nat, wokenSend: nat,
                         txLock: int, rxLock: int, phase: Phase)

  datatype Event =
    | Send(position: Position, woken: bool)   // a task, woken for this or not, in its critical section
    | Receive(woken: bool)
    | Peek(woken: bool)
    | SendFromIsr(position: Position)
    | ReceiveFromIsr
    | Lock(side: Side)
    | Check
    | TimedOut
    | Place
    | UnlockTx
    | UnlockRx
    | Expire(side: Side)                      // a blocked task times out
    | Reset

  /** The byte a count wraps to. */
  function Int8(x: int): int { if x > 127 then x - 256 else x }

  /** A signed byte cast to the unsigned 32-bit type. */
  function AsUnsigned(x: int): int { if x < 0 then x + TWO32 else x }

  /** prvIncrementQueueTxLock and prvIncrementQueueRxLock. */
  function Increment(lock: int, numTasks: nat): int {
    if AsUnsigned(lock) < numTasks then Int8(lock + 1) else lock
  }

  /** One blocked receiver, if any, is woken. */
  function WakeReceiver(s: State): State {
    if s.waitReceive > 0 then s.(waitReceive := s.waitReceive - 1, wokenReceive := s.wokenReceive + 1) else s
  }

  function WakeSender(s: State): State {
    if s.waitSend > 0 then s.(waitSend := s.waitSend - 1, wokenSend := s.wokenSend + 1) else s
  }

  function WakeReceivers(s: State, k: int): State {
    var w := if k <= 0 then 0 else if k < s.waitReceive then k else s.waitReceive;
    s.(waitReceive := s.waitReceive - w, wokenReceive := s.wokenReceive + w)
  }

  function WakeSenders(s: State, k: int): State {
    var w := if k <= 0 then 0 else if k < s.waitSend then k else s.waitSend;
    s.(waitSend := s.waitSend - w, wokenSend := s.wokenSend + w)
  }

  predicate Room(s: State, position: Position) { s.count < s.length || position == Overwrite }

  /** The items after a send that finds room. */
  function Counted(s: State, position: Position): State {
    if position == Overwrite && s.count > 0 then s else s.(count := s.count + 1)
  }

  /** A woken task runs. */
  function RanSender(s: State, woken: bool): State {
    if woken && s.wokenSend > 0 then s.(wokenSend := s.wokenSend - 1) else s
  }

  function RanReceiver(s: State, woken: bool): State {
    if woken && s.wokenReceive > 0 then s.(wokenReceive := s.wokenReceive - 1) else s
  }

  /** One step; a step that cannot happen in a state leaves it alone.  Tasks run only while the
      scheduler is not suspended, interrupts at any time.  A task that is about to block is not
      blocked already, so fewer than numTasks tasks are. */
  function Next(numTasks: nat, s: State, e: Event): State {
    match e
    case Send(position, woken) =>
      if s.phase != Idle then s
      else if Room(s, position) then WakeReceiver(Counted(RanSender(s, woken), position))
      else RanSender(s, woken)
    case Receive(woken) =>
      if s.phase != Idle then s
      else if s.count > 0 then WakeSender(RanReceiver(s, woken).(count := s.count - 1))
      else RanReceiver(s, woken)
    case Peek(woken) =>
      if s.phase != Idle then s
      else if s.count > 0 then WakeReceiver(RanReceiver(s, woken))
      else RanReceiver(s, woken)
    case SendFromIsr(position) =>
      if !Room(s, position) then s
      else if s.txLock == UNLOCKED then WakeReceiver(Counted(s, position))
      else Counted(s, position).(txLock := Increment(s.txLock, numTasks))
    case ReceiveFromIsr =>
      if s.count == 0 then s
      else if s.rxLock == UNLOCKED then WakeSender(s.(count := s.count - 1))
      else s.(count := s.count - 1, rxLock := Increment(s.rxLock, numTasks))
    case Lock(side) =>
      if s.phase != Idle || s.waitReceive + s.waitSend >= numTasks then s
      else s.(phase := Locked(side),
              txLock := if s.txLock == UNLOCKED then 0 else s.txLock,
              rxLock := if s.rxLock == UNLOCKED then 0 else s.rxLock)
    case Check =>
      if !s.phase.Locked? then s
      else if (if s.phase.side == ToSend then s.count == s.length else s.count == 0)
        then s.(phase := Seen(s.phase.side))
      else s.(phase := Unlocking)
    case TimedOut => if s.phase.Locked? then s.(phase := Unlocking) else s
    case Place =>
      if !s.phase.Seen? then s
      else if s.phase.side == ToSend then s.(waitSend := s.waitSend + 1, phase := Unlocking)
      else s.(waitReceive := s.waitReceive + 1, phase := Unlocking)
    case UnlockTx =>
      if s.phase != Unlocking then s else WakeReceivers(s, s.txLock).(txLock := UNLOCKED, phase := UnlockingRx)
    case UnlockRx =>
      if s.phase != UnlockingRx then s else WakeSenders(s, s.rxLock).(rxLock := UNLOCKED, phase := Idle)
    case Expire(side) =>
      if s.phase != Idle then s
      else if side == ToSend then (if s.waitSend > 0 then s.(waitSend := s.waitSend - 1) else s)
      else (if s.waitReceive > 0 then s.(waitReceive := s.waitReceive - 1) else s)
    case Reset =>
      if s.phase != Idle then s
      else WakeSender(s.(count := 0, txLock := UNLOCKED, rxLock := UNLOCKED))
  }

  /** Overwriting is for queues of length one. */
  predicate Allowed(s: State, e: Event) {
    && (e.Send? && e.position == Overwrite ==> s.length == 1)
    && (e.SendFromIsr? && e.position == Overwrite ==> s.length == 1)
  }

  function Run(numTasks: nat, s: State, events: seq<Event>): State
    decreases |events|
  {
    if events == [] then s else Run(numTasks, Next(numTasks, s, events[0]), events[1..])
  }

  function New(length: nat): State { State(0, length, 0, 0, 0, 0, UNLOCKED, UNLOCKED, Idle) }

  /** No wake-up has been lost: while tasks are blocked on an unlocked side, no more items (or
      free slots) are there than tasks have been woken for and not run since. */
  predicate NothingLost(s: State) { ReceiversServed(s) && SendersServed(s) }

  predicate ReceiversServed(s: State) { s.waitReceive > 0 && s.txLock == UNLOCKED ==> s.count <= s.wokenReceive }

  predicate SendersServed(s: State) { s.waitSend > 0 && s.rxLock == UNLOCKED ==> s.length <= s.count + s.wokenSend }

  // What a lock count owes: enough wake-ups for every item posted since, or for every task.
  predicate Owed(lock: int, numTasks: nat, there: int, woken: nat) {
    if lock == UNLOCKED then there <= woken else there <= woken + lock || lock >= numTasks
  }

  predicate Sound(numTasks: nat, s: State) {
    && 1 <= s.length && s.count <= s.length
    && s.waitReceive + s.waitSend <= numTasks
    && (s.phase.Locked? || s.phase.Seen? ==> s.waitReceive + s.waitSend < numTasks)
    && (s.txLock == UNLOCKED <==> s.phase == Idle || s.phase == UnlockingRx)
    && (s.rxLock == UNLOCKED <==> s.phase == Idle)
    && -1 <= s.txLock <= numTasks && -1 <= s.rxLock <= numTasks
  }

  predicate OwedToReceivers(numTasks: nat, s: State) {
    s.waitReceive > 0 || s.phase == Seen(ToReceive) ==> Owed(s.txLock, numTasks, s.count, s.wokenReceive)
  }

  predicate OwedToSenders(numTasks: nat, s: State) {
    s.waitSend > 0 || s.phase == Seen(ToSend) ==> Owed(s.rxLock, numTasks, s.length - s.count, s.wokenSend)
  }

  predicate Invariant(numTasks: nat, s: State) {
    Sound(numTasks, s) && OwedToReceivers(numTasks, s) && OwedToSenders(numTasks, s)
  }

  /** Reset wakes one sender only, whatever the number of slots that become free: it loses no
      wake-up exactly when at most one sender is blocked or one more woken sender is enough. */
  predicate HarmlessReset(s: State) { s.phase != Idle || s.waitSend <= 1 || s.length <= s.wokenSend + 1 }

  lemma SendStep(numTasks: nat, s: State, e: Event)
    requires e.Send?
    requires numTasks <= 127 && Sound(numTasks, s) && OwedToReceivers(numTasks, s) && Allowed(s, e)
    ensures var t := Next(numTasks, s, e);
            && Sound(numTasks, t) && OwedToReceivers(numTasks, t) && t.length == s.length
            && (OwedToSenders(numTasks, s) && !e.Reset? ==> OwedToSenders(numTasks, t))
  {
  }

  lemma TaskStep(numTasks: nat, s: State, e: Event)
    requires e.Receive? || e.Peek? || e.Expire?
    requires numTasks <= 127 && Sound(numTasks, s) && OwedToReceivers(numTasks, s) && Allowed(s, e)
    ensures var t := Next(numTasks, s, e);
            && Sound(numTasks, t) && OwedToReceivers(numTasks, t) && t.length == s.length
            && (OwedToSenders(numTasks, s) && !e.Reset? ==> OwedToSenders(numTasks, t))
  {
  }

  lemma InterruptStep(numTasks: nat, s: State, e: Event)
    requires e.SendFromIsr? || e.ReceiveFromIsr?
    requires numTasks <= 127 && Sound(numTasks, s) && OwedToReceivers(numTasks, s) && Allowed(s, e)
    ensures var t := Next(numTasks, s, e);
            && Sound(numTasks, t) && OwedToReceivers(numTasks, t) && t.length == s.length
            && (OwedToSenders(numTasks, s) && !e.Reset? ==> OwedToSenders(numTasks, t))
  {
  }

  lemma BlockingStep(numTasks: nat, s: State, e: Event)
    requires e.Lock? || e.Check? || e.TimedOut? || e.Place? || e.UnlockTx? || e.UnlockRx? || e.Reset?
    requires numTasks <= 127 && Sound(numTasks, s) && OwedToReceivers(numTasks, s)
    ensures var t := Next(numTasks, s, e);
            && Sound(numTasks, t) && OwedToReceivers(numTasks, t) && t.length == s.length
            && (OwedToSenders(numTasks, s) && !e.Reset? ==> OwedToSenders(numTasks, t))
  {
  }

  lemma ResetStep(numTasks: nat, s: State)
    requires Invariant(numTasks, s) && HarmlessReset(s)
    ensures OwedToSenders(numTasks, Next(numTasks, s, Reset))
  {
  }

  /** Every step keeps what the lock counts owe to receivers, whichever task or interrupt takes it
      and even if it is a reset; what they owe to senders is kept by all but harmful resets. */
  lemma StepKeepsInvariant(numTasks: nat, s: State, e: Event)
    requires numTasks <= 127 && Sound(numTasks, s) && OwedToReceivers(numTasks, s) && Allowed(s, e)
    ensures var t := Next(numTasks, s, e);
            && Sound(numTasks, t) && OwedToReceivers(numTasks, t) && t.length == s.length
            && (OwedToSenders(numTasks, s) && (e.Reset? ==> HarmlessReset(s)) ==> OwedToSenders(numTasks, t))
  {
    hide Sound, OwedToReceivers, OwedToSenders, Next, Allowed, HarmlessReset;
    if e.Send? {
      SendStep(numTasks, s, e);
    } else if e.Receive? || e.Peek? || e.Expire? {
      TaskStep(numTasks, s, e);
    } else if e.SendFromIsr? || e.ReceiveFromIsr? {
      InterruptStep(numTasks, s, e);
    } else {
      BlockingStep(numTasks, s, e);
      if e.Reset? && HarmlessReset(s) && OwedToSenders(numTasks, s) {
        ResetStep(numTasks, s);
      }
    }
  }

  lemma InvariantIsEnough(numTasks: nat, s: State)
    requires Invariant(numTasks, s)
    ensures NothingLost(s)
  {
  }

  lemma OwedIsEnough(numTasks: nat, s: State)
    requires Sound(numTasks, s) && OwedToReceivers(numTasks, s)
    ensures ReceiversServed(s)
  {
  }

  /** Reset keeps the promise to blocked senders exactly under its condition. */
  lemma ResetKeepsIff(numTasks: nat, s: State)
    requires Invariant(numTasks, s)
    ensures NothingLost(Next(numTasks, s, Reset)) <==> HarmlessReset(s)
  {
  }

  /** Every event is allowed where it happens. */
  predicate Lawful(numTasks: nat, s: State, events: seq<Event>)
    decreases |events|
  {
    events == [] || (Allowed(s, events[0]) && Lawful(numTasks, Next(numTasks, s, events[0]), events[1..]))
  }

  /** Every event is allowed where it happens, and every reset is harmless there. */
  predicate Orderly(numTasks: nat, s: State, events: seq<Event>)
    decreases |events|
  {
    events == [] ||
    (&& Allowed(s, events[0]) && (events[0].Reset? ==> HarmlessReset(s))
     && Orderly(numTasks, Next(numTasks, s, events[0]), events[1..]))
  }

  lemma {:induction false} RunKeepsInvariant(numTasks: nat, s: State, events: seq<Event>)
    requires numTasks <= 127 && Sound(numTasks, s) && OwedToReceivers(numTasks, s) && Lawful(numTasks, s, events)
    ensures Sound(numTasks, Run(numTasks, s, events)) && OwedToReceivers(numTasks, Run(numTasks, s, events))
    ensures Run(numTasks, s, events).length == s.length
    ensures OwedToSenders(numTasks, s) && Orderly(numTasks, s, events) ==>
              OwedToSenders(numTasks, Run(numTasks, s, events))
    decreases |events|
  {
    hide Sound, OwedToReceivers, OwedToSenders, Next, Allowed, HarmlessReset;
    if events != [] {
      StepKeepsInvariant(numTasks, s, events[0]);
      RunKeepsInvariant(numTasks, Next(numTasks, s, events[0]), events[1..]);
    }
  }

  lemma {:induction false} OrderlyIsLawful(numTasks: nat, s: State, events: seq<Event>)
    requires Orderly(numTasks, s, events)
    ensures Lawful(numTasks, s, events)
    decreases |events|
  {
    hide Next, Allowed, HarmlessReset;
    if events != [] {
      OrderlyIsLawful(numTasks, Next(numTasks, s, events[0]), events[1..]);
    }
  }

  /** No run of a queue, with resets wherever they come, loses the wake-up of a receiver. */
  ghost predicate ReceiversNeverLose(numTasks: nat) {
    forall length: nat, events: seq<Event> :: length >= 1 && Lawful(numTasks, New(length), events) ==>
      ReceiversServed(Run(numTasks, New(length), events))
  }

  /** No run of a queue without a harmful reset loses a wake-up, of a receiver or of a sender. */
  ghost predicate NeverLoses(numTasks: nat) {
    forall length: nat, events: seq<Event> :: length >= 1 && Orderly(numTasks, New(length), events) ==>
      NothingLost(Run(numTasks, New(length), events))
  }

  /** No wake-up is ever lost, through any interleaving of tasks, interrupts, locks, timeouts and
      harmless resets, exactly when the number of tasks fits in the signed byte of the lock counts:
      with 128 tasks or more, 128 posts from interrupts wrap the count and its debt is forgotten.
      For receivers the same holds through every reset as well. */
  lemma NeverLosesIff(numTasks: nat)
    requires numTasks > 0
    ensures NeverLoses(numTasks) <==> numTasks <= 127
    ensures ReceiversNeverLose(numTasks) <==> numTasks <= 127
  {
    hide Sound, OwedToReceivers, OwedToSenders, Next, Orderly, Lawful, ReceiversServed, SendersServed, Run;
    if numTasks <= 127 {
      forall length: nat, events: seq<Event> | length >= 1 && Lawful(numTasks, New(length), events)
        ensures ReceiversServed(Run(numTasks, New(length), events))
        ensures Orderly(numTasks, New(length), events) ==> NothingLost(Run(numTasks, New(length), events))
      {
        NewIsFine(numTasks, length);
        RunKeepsInvariant(numTasks, New(length), events);
        OwedIsEnough(numTasks, Run(numTasks, New(length), events));
        if Orderly(numTasks, New(length), events) {
          InvariantIsEnough(numTasks, Run(numTasks, New(length), events));
        }
      }
      forall length: nat, events: seq<Event> | length >= 1 && Orderly(numTasks, New(length), events)
        ensures Lawful(numTasks, New(length), events)
      {
        OrderlyIsLawful(numTasks, New(length), events);
      }
    } else {
      var events := WrappingRun(numTasks);
      OrderlyIsLawful(numTasks, New(128), events);
      assert Orderly(numTasks, New(128), events);
    }
  }

  /** Whenever a run loses a wake-up, it is a sender's, and a reset before that is to blame: up to
      the first harmful one nothing was lost, and that reset itself left a sender asleep. */
  lemma {:induction false} LossesComeFromResets(numTasks: nat, s: State, events: seq<Event>) returns (k: nat)
    requires numTasks <= 127 && Invariant(numTasks, s) && Lawful(numTasks, s, events)
    requires !NothingLost(Run(numTasks, s, events))
    ensures k < |events| && events[k] == Reset && Orderly(numTasks, s, events[..k])
    ensures NothingLost(Run(numTasks, s, events[..k]))
    ensures ReceiversServed(Run(numTasks, s, events))
    ensures !SendersServed(Next(numTasks, Run(numTasks, s, events[..k]), Reset))
    decreases |events|
  {
    hide Sound, OwedToReceivers, OwedToSenders, Next, Allowed, HarmlessReset, ReceiversServed, SendersServed;
    RunKeepsInvariant(numTasks, s, events);
    OwedIsEnough(numTasks, Run(numTasks, s, events));
    InvariantIsEnough(numTasks, s);
    assert events != [];
    var t := Next(numTasks, s, events[0]);
    StepKeepsInvariant(numTasks, s, events[0]);
    if events[0].Reset? && !HarmlessReset(s) {
      k := 0;
      ResetKeepsIff(numTasks, s);
      OwedIsEnough(numTasks, t);
    } else {
      var j := LossesComeFromResets(numTasks, t, events[1..]);
      k := j + 1;
      assert events[..k][1..] == events[1..][..j] && events[..k][0] == events[0];
    }
  }

  lemma NewIsFine(numTasks: nat, length: nat)
    requires length >= 1
    ensures Invariant(numTasks, New(length))
  {
  }

  // A receiver blocks; before it has unlocked the queue, 128 items are posted by interrupts.
  lemma WrappingRun(numTasks: nat) returns (events: seq<Event>)
    requires numTasks >= 128
    ensures Orderly(numTasks, New(128), events) && !ReceiversServed(Run(numTasks, New(128), events))
  {
    hide Orderly, Run, Next, ReceiversServed;
    var forgotten := State(128, 128, 1, 0, 0, 0, UNLOCKED, UNLOCKED, Idle);
    events := UnlockForgets(numTasks, forgotten);
    events := Posts(numTasks, 128, forgotten, events);
    events := Blocks(numTasks, forgotten, events);
    Sleeping(forgotten);
  }

  lemma UnlockForgets(numTasks: nat, last: State) returns (events: seq<Event>)
    requires last == State(128, 128, 1, 0, 0, 0, UNLOCKED, UNLOCKED, Idle)
    ensures Orderly(numTasks, Posted(128), events) && Run(numTasks, Posted(128), events) == last
  {
    hide Orderly, Run;
    Nothing(numTasks, last);
    var s := last.(rxLock := 0, phase := UnlockingRx);
    events := Before(numTasks, s, UnlockRx, last, last, []);
    events := Before(numTasks, Posted(128), UnlockTx, s, last, events);
  }

  lemma Blocks(numTasks: nat, last: State, rest: seq<Event>) returns (events: seq<Event>)
    requires numTasks >= 128 && Orderly(numTasks, Posted(0), rest) && Run(numTasks, Posted(0), rest) == last
    ensures Orderly(numTasks, New(128), events) && Run(numTasks, New(128), events) == last
  {
    hide Orderly, Run;
    var s := New(128).(phase := Locked(ToReceive), txLock := 0, rxLock := 0);
    var s2 := s.(phase := Seen(ToReceive));
    events := Before(numTasks, s2, Place, Posted(0), last, rest);
    events := Before(numTasks, s, Check, s2, last, events);
    events := Before(numTasks, New(128), Lock(ToReceive), s, last, events);
  }

  lemma Sleeping(s: State)
    requires s.waitReceive > 0 && s.txLock == UNLOCKED && s.count > s.wokenReceive
    ensures !ReceiversServed(s)
  {
  }

  lemma Nothing(numTasks: nat, s: State)
    ensures Orderly(numTasks, s, []) && Run(numTasks, s, []) == s
  {
  }

  lemma Before(numTasks: nat, s: State, e: Event, s2: State, last: State,
                                  rest: seq<Event>) returns (events: seq<Event>)
    requires Allowed(s, e) && !e.Reset? && Next(numTasks, s, e) == s2
    requires Orderly(numTasks, s2, rest) && Run(numTasks, s2, rest) == last
    ensures events == [e] + rest
    ensures Orderly(numTasks, s, events) && Run(numTasks, s, events) == last
  {
    hide Next;
    events := [e] + rest;
    assert events[1..] == rest;
  }

  // The state after 128 - k posts, and the posts still to come.
  function Posted(posts: nat): State {
    State(posts, 128, 1, 0, 0, 0, Int8(posts), 0, Unlocking)
  }

  lemma {:induction false} Posts(numTasks: nat, k: nat, last: State, rest: seq<Event>) returns (events: seq<Event>)
    requires numTasks >= 128 && k <= 128
    requires Orderly(numTasks, Posted(128), rest) && Run(numTasks, Posted(128), rest) == last
    ensures Orderly(numTasks, Posted(128 - k), events) && Run(numTasks, Posted(128 - k), events) == last
  {
    hide Orderly, Run;
    if k == 0 {
      events := rest;
    } else {
      events := Posts(numTasks, k - 1, last, rest);
      events := Before(numTasks, Posted(128 - k), SendFromIsr(Back), Posted(128 - (k - 1)), last, events);
    }
  }

  /** So nobody sleeps while there is work: with no woken task left to run, blocked receivers face
      an empty queue, whatever was reset, and blocked senders a full one, if no reset was harmful. */
  lemma NobodySleepsOnWork(numTasks: nat, length: nat, events: seq<Event>)
    requires numTasks <= 127 && length >= 1 && Lawful(numTasks, New(length), events)
    ensures var s := Run(numTasks, New(length), events);
            s.phase == Idle ==>
              && (s.waitReceive > 0 && s.wokenReceive == 0 ==> s.count == 0)
              && (s.waitSend > 0 && s.wokenSend == 0 && Orderly(numTasks, New(length), events) ==> s.count == s.length)
  {
    hide Next, Orderly, Lawful, Run;
    NewIsFine(numTasks, length);
    RunKeepsInvariant(numTasks, New(length), events);
  }

  // One more sender blocks on a full queue.
  lemma SenderBlocks(numTasks: nat, s: State, last: State, rest: seq<Event>)
    returns (events: seq<Event>)
    requires s.phase == Idle && s.txLock == s.rxLock == UNLOCKED && s.count == s.length
    requires s.waitReceive + s.waitSend < numTasks
    requires var t := s.(waitSend := s.waitSend + 1); Orderly(numTasks, t, rest) && Run(numTasks, t, rest) == last
    ensures Orderly(numTasks, s, events) && Run(numTasks, s, events) == last
  {
    hide Orderly, Run;
    var t := s.(waitSend := s.waitSend + 1);
    var s1 := s.(phase := Locked(ToSend), txLock := 0, rxLock := 0);
    var s2 := s1.(phase := Seen(ToSend));
    var s3 := s1.(waitSend := s.waitSend + 1, phase := Unlocking);
    var s4 := s3.(txLock := UNLOCKED, phase := UnlockingRx);
    events := Before(numTasks, s4, UnlockRx, t, last, rest);
    events := Before(numTasks, s3, UnlockTx, s4, last, events);
    events := Before(numTasks, s2, Place, s3, last, events);
    events := Before(numTasks, s1, Check, s2, last, events);
    events := Before(numTasks, s, Lock(ToSend), s1, last, events);
  }

  /** The state reset goes wrong in is reachable: two senders blocked on a full queue of two. */
  lemma ResetLeavesASenderAsleep(numTasks: nat) returns (events: seq<Event>)
    requires numTasks >= 2
    ensures Orderly(numTasks, New(2), events)
    ensures !NothingLost(Next(numTasks, Run(numTasks, New(2), events), Reset))
  {
    hide Orderly, Run, Next;
    var full := New(2).(count := 2);
    var last := full.(waitSend := 2);
    Nothing(numTasks, last);
    events := SenderBlocks(numTasks, full.(waitSend := 1), last, []);
    events := SenderBlocks(numTasks, full, last, events);
    events := Fills(numTasks, last, events);
    ResetKeepsIff(numTasks, last);
  }

  lemma Fills(numTasks: nat, last: State, rest: seq<Event>) returns (events: seq<Event>)
    requires Orderly(numTasks, New(2).(count := 2), rest) && Run(numTasks, New(2).(count := 2), rest) == last
    ensures Orderly(numTasks, New(2), events) && Run(numTasks, New(2), events) == last
  {
    hide Orderly, Run;
    events := Before(numTasks, New(2).(count := 1), Send(Back, false), New(2).(count := 2), last, rest);
    events := Before(numTasks, New(2), Send(Back, false), New(2).(count := 1), last, events);
  }

  // ---- the queue ----

  class Queue<T(0)> {
    const numTasks: nat
    const slots: array<T>
    var writeTo: nat
    var readFrom: nat
    var count: nat
    var txLock: int
    var rxLock: int
    // How many tasks are in the two lists of blocked tasks.
    var waitReceive: nat
    var waitSend: nat
    ghost var wokenReceive: nat
    ghost var wokenSend: nat
    ghost var phase: Phase

    ghost predicate Valid()
      reads this
    {
      && readFrom < slots.Length && count <= slots.Length
      && writeTo == WriteSlot(readFrom, count, slots.Length)
    }

    /** The queued items, oldest first. */
    ghost function Contents(): seq<T>
      requires Valid()
      reads this, slots
    {
      Deque(slots[..], readFrom, count)
    }

    ghost function View(): State
      reads this
    {
      State(count, slots.Length, waitReceive, wokenReceive, waitSend, wokenSend, txLock, rxLock, phase)
    }

    /** xQueueGenericReset on a new queue. */
    constructor (length: nat, tasks: nat)
      requires length > 0
      ensures Valid() && fresh(slots) && numTasks == tasks && View() == New(length) && Contents() == []
    {
      slots, numTasks := new T[length], tasks;
      writeTo, readFrom, count := 0, length - 1, 0;
      txLock, rxLock, waitReceive, waitSend := UNLOCKED, UNLOCKED, 0, 0;
      wokenReceive, wokenSend, phase := 0, 0, Idle;
    }

    /** prvCopyDataToQueue. */
    method CopyDataToQueue(x: T, position: Position)
      requires Valid() && (count < slots.Length || position == Overwrite)
      requires position == Overwrite ==> slots.Length == 1
      modifies this`writeTo, this`readFrom, this`count, slots
      ensures Valid()
      ensures position == Back ==> Contents() == old(Contents()) + [x]
      ensures position == Front ==> Contents() == [x] + old(Contents())
      ensures position == Overwrite ==> Contents() == [x]
    {
      hide Deque;
      ghost var before := slots[..];
      var messages := count;
      if position == Back {
        PushBack(before, readFrom, count, x);
        slots[writeTo] := x;
        writeTo := writeTo + 1;
        if writeTo >= slots.Length {
          writeTo := 0;
        }
        assert slots[..] == before[WriteSlot(readFrom, count, |before|) := x];
      } else {
        if position == Overwrite {
          OneSlot(x);
        } else {
          PushFront(before, readFrom, count, x);
        }
        slots[readFrom] := x;
        assert slots[..] == before[readFrom := x];
        if readFrom == 0 {
          readFrom := slots.Length - 1;
        } else {
          readFrom := readFrom - 1;
        }
        if position == Overwrite && messages > 0 {
          messages := messages - 1;
        }
        if position == Overwrite {
          assert slots[..] == [x];
        }
      }
      count := messages + 1;
    }

    /** prvCopyDataFromQueue: reads the oldest item; the caller adjusts the count. */
    method CopyDataFromQueue() returns (x: T)
      requires Valid() && count > 0
      modifies this`readFrom
      ensures readFrom == NextSlot(old(readFrom), slots.Length) && x == slots[readFrom] == OldestItem(old(readFrom))
    {
      readFrom := readFrom + 1;
      if readFrom >= slots.Length {
        readFrom := 0;
      }
      x := slots[readFrom];
    }

    // The oldest item, given the slot last read.
    ghost function OldestItem(last: nat): T
      requires last < slots.Length
      reads slots
    {
      slots[NextSlot(last, slots.Length)]
    }

    /** The critical section of xQueueGenericSend: with room, the item is queued and one blocked
        receiver woken; without, the queue is as it was. */
    method TrySend(x: T, position: Position, ghost woken: bool) returns (ok: bool)
      requires Valid() && phase == Idle && (position == Overwrite ==> slots.Length == 1)
      modifies this, slots
      ensures Valid() && phase == old(phase) && View() == Next(numTasks, old(View()), Send(position, woken))
      ensures waitReceive == if ok && old(waitReceive) > 0 then old(waitReceive) - 1 else old(waitReceive)
      ensures waitSend == old(waitSend) && txLock == old(txLock) && rxLock == old(rxLock)
      ensures ok <==> old(count) < slots.Length || position == Overwrite
      ensures !ok ==> Contents() == old(Contents())
      ensures ok && position == Back ==> Contents() == old(Contents()) + [x]
      ensures ok && position == Front ==> Contents() == [x] + old(Contents())
      ensures ok && position == Overwrite ==> Contents() == [x]
    {
      hide Deque, WriteSlot;
      ok := false;
      if woken && wokenSend > 0 {
        wokenSend := wokenSend - 1;
      }
      if count < slots.Length || position == Overwrite {
        CopyDataToQueue(x, position);
        WakeOneReceiver();
        ok := true;
      }
    }

    // xTaskRemoveFromEventList on the blocked receivers, unless there are none.
    method WakeOneReceiver()
      modifies this`waitReceive, this`wokenReceive
      ensures View() == WakeReceiver(old(View()))
    {
      if waitReceive > 0 {
        waitReceive, wokenReceive := waitReceive - 1, wokenReceive + 1;
      }
    }

    method WakeOneSender()
      modifies this`waitSend, this`wokenSend
      ensures View() == WakeSender(old(View()))
    {
      if waitSend > 0 {
        waitSend, wokenSend := waitSend - 1, wokenSend + 1;
      }
    }

    /** The critical section of xQueueReceive. */
    method TryReceive(ghost woken: bool) returns (ok: bool, x: T)
      requires Valid() && phase == Idle
      modifies this
      ensures Valid() && phase == old(phase) && View() == Next(numTasks, old(View()), Receive(woken))
      ensures waitSend == if ok && old(waitSend) > 0 then old(waitSend) - 1 else old(waitSend)
      ensures waitReceive == old(waitReceive) && txLock == old(txLock) && rxLock == old(rxLock)
      ensures ok <==> old(Contents()) != []
      ensures if ok then old(Contents()) == [x] + Contents() else Contents() == old(Contents())
    {
      hide Deque, WriteSlot;
      ok, x := false, *;
      if woken && wokenReceive > 0 {
        wokenReceive := wokenReceive - 1;
      }
      if count > 0 {
        PopFront(slots[..], readFrom, count);
        x := CopyDataFromQueue();
        count := count - 1;
        WakeOneSender();
        ok := true;
      }
    }

    /** The critical section of xQueuePeek: the read position is put back, and since the item stays
        the next blocked receiver is woken for it. */
    method TryPeek(ghost woken: bool) returns (ok: bool, x: T)
      requires Valid() && phase == Idle
      modifies this
      ensures Valid() && View() == Next(numTasks, old(View()), Peek(woken))
      ensures waitReceive == if ok && old(waitReceive) > 0 then old(waitReceive) - 1 else old(waitReceive)
      ensures waitSend == old(waitSend) && txLock == old(txLock) && rxLock == old(rxLock)
      ensures Contents() == old(Contents()) && (ok <==> Contents() != [])
      ensures ok ==> x == Contents()[0]
    {
      hide Deque, WriteSlot;
      ok, x := false, *;
      if woken && wokenReceive > 0 {
        wokenReceive := wokenReceive - 1;
      }
      if count > 0 {
        PopFront(slots[..], readFrom, count);
        var original := readFrom;
        x := CopyDataFromQueue();
        readFrom := original;
        WakeOneReceiver();
        ok := true;
      }
    }

    /** xQueueGenericSendFromISR: on a locked queue the wake-up is only counted. */
    method SendFromInterrupt(x: T, position: Position) returns (ok: bool)
      requires Valid() && (position == Overwrite ==> slots.Length == 1)
      modifies this, slots
      ensures Valid() && phase == old(phase) && View() == Next(numTasks, old(View()), SendFromIsr(position))
      ensures ok && old(txLock) == -1 && old(waitReceive) > 0 ==> waitReceive == old(waitReceive) - 1
      ensures !ok || old(txLock) != -1 || old(waitReceive) == 0 ==> waitReceive == old(waitReceive)
      ensures ok && 0 <= old(txLock) < numTasks && old(txLock) < 127 ==> txLock == old(txLock) + 1
      ensures ok && old(txLock) == 127 < numTasks ==> txLock == -128
      ensures !ok || old(txLock) == -1 || old(txLock) >= numTasks ==> txLock == old(txLock)
      ensures waitSend == old(waitSend) && rxLock == old(rxLock)
      ensures ok <==> old(count) < slots.Length || position == Overwrite
      ensures !ok ==> Contents() == old(Contents())
      ensures ok && position == Back ==> Contents() == old(Contents()) + [x]
      ensures ok && position == Front ==> Contents() == [x] + old(Contents())
      ensures ok && position == Overwrite ==> Contents() == [x]
    {
      hide Deque, WriteSlot;
      ok := false;
      if count < slots.Length || position == Overwrite {
        var lock := txLock;
        CopyDataToQueue(x, position);
        if lock == UNLOCKED {
          WakeOneReceiver();
        } else if AsUnsigned(lock) < numTasks {
          txLock := Int8(lock + 1);
        }
        ok := true;
      }
    }

    /** xQueueReceiveFromISR. */
    method ReceiveFromInterrupt() returns (ok: bool, x: T)
      requires Valid()
      modifies this
      ensures Valid() && phase == old(phase) && View() == Next(numTasks, old(View()), ReceiveFromIsr)
      ensures ok && old(rxLock) == -1 && old(waitSend) > 0 ==> waitSend == old(waitSend) - 1
      ensures !ok || old(rxLock) != -1 || old(waitSend) == 0 ==> waitSend == old(waitSend)
      ensures ok && 0 <= old(rxLock) < numTasks && old(rxLock) < 127 ==> rxLock == old(rxLock) + 1
      ensures ok && old(rxLock) == 127 < numTasks ==> rxLock == -128
      ensures !ok || old(rxLock) == -1 || old(rxLock) >= numTasks ==> rxLock == old(rxLock)
      ensures waitReceive == old(waitReceive) && txLock == old(txLock)
      ensures ok <==> old(Contents()) != []
      ensures if ok then old(Contents()) == [x] + Contents() else Contents() == old(Contents())
    {
      hide Deque, WriteSlot;
      ok, x := false, *;
      if count > 0 {
        var lock := rxLock;
        PopFront(slots[..], readFrom, count);
        x := CopyDataFromQueue();
        count := count - 1;
        if lock == UNLOCKED {
          WakeOneSender();
        } else if AsUnsigned(lock) < numTasks {
          rxLock := Int8(lock + 1);
        }
        ok := true;
      }
    }

    /** prvLockQueue, by a task about to block on the given side. */
    method LockQueue(ghost side: Side)
      requires phase == Idle && waitReceive + waitSend < numTasks
      modifies this`txLock, this`rxLock, this`phase
      ensures View() == Next(numTasks, old(View()), Lock(side))
      ensures txLock == if old(txLock) == -1 then 0 else old(txLock)
      ensures rxLock == if old(rxLock) == -1 then 0 else old(rxLock)
    {
      if rxLock == UNLOCKED {
        rxLock := 0;
      }
      if txLock == UNLOCKED {
        txLock := 0;
      }
      phase := Locked(side);
    }

    /** The locked queue is looked at once more; the answer decides whether the task blocks. */
    method MustBlock(side: Side) returns (block: bool)
      requires phase == Locked(side)
      modifies this`phase
      ensures View() == Next(numTasks, old(View()), Check) && (block <==> phase == Seen(side))
      ensures block <==> if side == ToSend then count == slots.Length else count == 0
    {
      block := if side == ToSend then count == slots.Length else count == 0;
      phase := if block then Seen(side) else Unlocking;
    }

    /** The task's time is up before it blocks: it goes on to unlock the queue. */
    method GiveUp(ghost side: Side)
      requires phase == Locked(side)
      modifies this`phase
      ensures View() == Next(numTasks, old(View()), TimedOut)
      ensures phase == Unlocking
    {
      phase := Unlocking;
    }

    /** The kernel takes a blocked task whose time is up off its list. */
    method ExpireWait(side: Side)
      requires phase == Idle && (if side == ToSend then waitSend else waitReceive) > 0
      modifies this`waitSend, this`waitReceive
      ensures View() == Next(numTasks, old(View()), Expire(side))
      ensures waitSend == old(waitSend) - (if side == ToSend then 1 else 0)
      ensures waitReceive == old(waitReceive) - (if side == ToReceive then 1 else 0)
    {
      if side == ToSend {
        waitSend := waitSend - 1;
      } else {
        waitReceive := waitReceive - 1;
      }
    }

    /** vTaskPlaceOnEventList. */
    method PlaceOnList(side: Side)
      requires phase == Seen(side)
      modifies this`waitSend, this`waitReceive, this`phase
      ensures View() == Next(numTasks, old(View()), Place)
      ensures waitSend == old(waitSend) + (if side == ToSend then 1 else 0)
      ensures waitReceive == old(waitReceive) + (if side == ToReceive then 1 else 0)
    {
      if side == ToSend {
        waitSend := waitSend + 1;
      } else {
        waitReceive := waitReceive + 1;
      }
      phase := Unlocking;
    }

    /** The first critical section of prvUnlockQueue: the posts counted are repaid one by one, as
        long as a receiver is blocked. */
    method UnlockTransmit()
      requires phase == Unlocking
      modifies this`txLock, this`waitReceive, this`wokenReceive, this`phase
      ensures View() == Next(numTasks, old(View()), UnlockTx)
      ensures txLock == -1 && waitReceive == old(waitReceive) - Max(0, Min(old(txLock), old(waitReceive)))
      ensures waitReceive - old(waitReceive) == old(wokenReceive) - wokenReceive
    {
      var lock := txLock;
      while lock > 0
        invariant lock <= txLock == old(txLock) && phase == Unlocking && (txLock > 0 ==> lock >= 0)
                  && (txLock <= 0 ==> lock == txLock)
        invariant waitReceive == old(waitReceive) - (txLock - lock)
                  && wokenReceive == old(wokenReceive) + (txLock - lock)
      {
        if waitReceive > 0 {
          WakeOneReceiver();
        } else {
          break;
        }
        lock := lock - 1;
      }
      txLock := UNLOCKED;
      phase := UnlockingRx;
    }

    /** The second critical section of prvUnlockQueue. */
    method UnlockReceive()
      requires phase == UnlockingRx
      modifies this`rxLock, this`waitSend, this`wokenSend, this`phase
      ensures View() == Next(numTasks, old(View()), UnlockRx)
      ensures rxLock == -1 && waitSend == old(waitSend) - Max(0, Min(old(rxLock), old(waitSend)))
      ensures waitSend - old(waitSend) == old(wokenSend) - wokenSend
    {
      var lock := rxLock;
      while lock > 0
        invariant lock <= rxLock == old(rxLock) && phase == UnlockingRx && (rxLock > 0 ==> lock >= 0)
                  && (rxLock <= 0 ==> lock == rxLock)
        invariant waitSend == old(waitSend) - (rxLock - lock) && wokenSend == old(wokenSend) + (rxLock - lock)
      {
        if waitSend > 0 {
          WakeOneSender();
          lock := lock - 1;
        } else {
          break;
        }
      }
      rxLock := UNLOCKED;
      phase := Idle;
    }

    /** xQueueGenericReset on a queue in use. */
    method ResetQueue()
      requires Valid() && phase == Idle
      modifies this
      ensures Valid() && View() == Next(numTasks, old(View()), Reset) && Contents() == []
      ensures waitSend == if old(waitSend) > 0 then old(waitSend) - 1 else 0
      ensures waitReceive == old(waitReceive) && txLock == -1 && rxLock == -1
    {
      count, writeTo, readFrom := 0, 0, slots.Length - 1;
      rxLock, txLock := UNLOCKED, UNLOCKED;
      WakeOneSender();
    }
  }

  // ---- first in, first out ----

  /** What tasks and interrupts do to a queue's items when nobody blocks. */
  datatype Access<T> = Post(item: T, fromIsr: bool) | Take(fromIsr: bool)

  // One access: what was posted and accepted, and what was received.
  method Serve<T(0)>(queue: Queue<T>, access: Access<T>) returns (accepted: seq<T>, received: seq<T>)
    requires queue.Valid() && queue.phase == Idle
    modifies queue, queue.slots
    ensures queue.Valid() && queue.phase == Idle
    ensures old(queue.Contents()) + accepted == received + queue.Contents()
    ensures accepted == if access.Post? && old(queue.count) < queue.slots.Length then [access.item] else []
    ensures |received| == if access.Take? && old(queue.count) > 0 then 1 else 0
    ensures queue.count == old(queue.count) + |accepted| - |received|
  {
    hide WriteSlot, Deque, Next;
    accepted, received := [], [];
    var ok: bool, x: T;
    ghost var items := queue.Contents();
    match access {
      case Post(item, fromIsr) =>
        if fromIsr {
          ok := queue.SendFromInterrupt(item, Back);
        } else {
          ok := queue.TrySend(item, Back, false);
        }
        accepted := if ok then [item] else [];
      case Take(fromIsr) =>
        if fromIsr {
          ok, x := queue.ReceiveFromInterrupt();
        } else {
          ok, x := queue.TryReceive(false);
        }
        received := if ok then [x] else [];
    }
    assert |items| == old(queue.count) && |queue.Contents()| == queue.count;
    assert [] + queue.Contents() == queue.Contents() && items + [] == items;
  }

  /** Whatever is posted to the back and taken, by tasks and by interrupts in any order: what comes
      out is what was in the queue and then what was accepted, in that order, and the queue holds the
      rest; and a post is accepted exactly when there is room. */
  method FirstInFirstOut<T(0)>(queue: Queue<T>, accesses: seq<Access<T>>)
    returns (accepted: seq<T>, received: seq<T>)
    requires queue.Valid() && queue.phase == Idle
    modifies queue, queue.slots
    ensures queue.Valid() && old(queue.Contents()) + accepted == received + queue.Contents()
    ensures |accepted| == Accepted(old(queue.count), queue.slots.Length, accesses)
  {
    hide Deque, WriteSlot;
    accepted, received := [], [];
    var k := 0;
    assert queue.Contents() + [] == [] + queue.Contents();
    assert accesses[0..] == accesses;
    while k < |accesses|
      invariant 0 <= k <= |accesses| && queue.Valid() && queue.phase == Idle
      invariant old(queue.Contents()) + accepted == received + queue.Contents()
      invariant |accepted| + Accepted(queue.count, queue.slots.Length, accesses[k..]) ==
                  Accepted(old(queue.count), queue.slots.Length, accesses)
    {
      ghost var items := queue.Contents();
      assert accesses[k..][0] == accesses[k] && accesses[k..][1..] == accesses[k + 1..];
      var a, r := Serve(queue, accesses[k]);
      Reorder(old(queue.Contents()), accepted, a, received, r, items, queue.Contents());
      accepted, received := accepted + a, received + r;
      k := k + 1;
    }
  }

  lemma Reorder<T>(first: seq<T>, accepted: seq<T>, a: seq<T>, received: seq<T>, r: seq<T>, items: seq<T>,
                   items2: seq<T>)
    requires first + accepted == received + items && items + a == r + items2
    ensures first + (accepted + a) == (received + r) + items2
  {
    assert first + (accepted + a) == (first + accepted) + a;
    assert (received + items) + a == received + (items + a);
    assert received + (r + items2) == (received + r) + items2;
  }

  /** How many posts find room in a queue of the given length that holds count items. */
  function Accepted<T>(count: nat, length: nat, accesses: seq<Access<T>>): nat
    requires count <= length
    decreases |accesses|
  {
    if accesses == [] then 0
    else if accesses[0].Take? then Accepted(if count > 0 then count - 1 else 0, length, accesses[1..])
    else if count < length then 1 + Accepted(count + 1, length, accesses[1..])
    else Accepted(count, length, accesses[1..])
  }
}
