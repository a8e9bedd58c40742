// Software timers: the timer service task, its two lists, and a 32-bit tick that wraps.
//
// The lists hold wrapped expiry times.  The ghost clocks hold true, unbounded times: when a
// timer was started, how often it has fired since, and when it expires next.  The invariant
// says that the current list expires in the present epoch of 2^32 ticks and the overflow list
// in the next one, and that no auto-reload timer drifts.
module Timers {
  import opened Words
  import opened KernelList

  datatype Timer = Timer(period: u32, autoReload: bool, active: bool, isStatic: bool)

  /** A list item: its value and the timer that owns it. */
  datatype Entry = Entry(id: nat, value: u32)

  /** When the timer was last started, how often it has fired since, when it expires next, and
      how many of its callbacks had been called before the start. */
  datatype Clock = Clock(start: nat, fired: nat, expiry: nat, base: nat)

  type TimerTable = map<nat, Timer>

  type ClockTable = map<nat, Clock>

  /** A message to the service task; a start (or reset) carries the tick at which it was issued. */
  datatype Command =
    | Start(id: nat, value: u32)
    | Stop(id: nat)
    | ChangePeriod(id: nat, newPeriod: u32)
    | Delete(id: nat)

  /** What one round of the service task did: it processed the head of the current list, it
      switched the lists, or it went to sleep. */
  datatype Outcome = Processed | Switched | Blocked(ticks: u32, indefinitely: bool)

  // ---- wrapped against true time ----

  /** The decision of prvInsertTimerInActiveList: has the expiry e of a command issued at c
      already passed at n? */
  predicate ProcessNow(e: u32, n: u32, c: u32, period: u32) {
    if e <= n then Sub32(n, c) >= period else n < c && e >= c
  }

  /** The four-way comparison of wrapped times agrees with unbounded time, for every period and
      every command less than 2^32 ticks old: process now iff the expiry has passed, otherwise
      the list chosen is the one of the epoch the expiry falls in. */
  lemma InsertDecision(command: nat, now: nat, period: u32)
    requires command <= now < command + TWO32 && period > 0
    ensures var e, n, c := Wrap32(command + period), Wrap32(now), Wrap32(command);
            var epoch := now / TWO32;
            && (ProcessNow(e, n, c, period) <==> command + period <= now)
            && (!ProcessNow(e, n, c, period) ==>
                  command + period == (if e <= n then epoch + 1 else epoch) * TWO32 + e)
  {
    var c, n := command % TWO32, now % TWO32;
    var ec, en := command / TWO32, now / TWO32;
    assert command == ec * TWO32 + c && now == en * TWO32 + n;
    assert ec == en || ec == en - 1;
    var s := c + period;
    if s < TWO32 {
      DivModUnique(command + period, TWO32, ec, s);
    } else {
      DivModUnique(command + period, TWO32, ec + 1, s - TWO32);
    }
    assert Sub32(n, c) == now - command;
  }

  /** Changing the period takes the present as the command time, so it never processes now. */
  lemma ChangePeriodNeverDue(now: nat, period: u32)
    requires period > 0
    ensures !ProcessNow(Wrap32(now + period), Wrap32(now), Wrap32(now), period)
  {
    InsertDecision(now, now, period);
  }

  // ---- lists ----

  function EntryValues(list: seq<Entry>): (vs: seq<u32>)
    ensures |vs| == |list| && forall i :: 0 <= i < |list| ==> vs[i] == list[i].value
  {
    if list == [] then [] else [list[0].value] + EntryValues(list[1..])
  }

  /** vListInsert on a list of timers. */
  function ListInsert(list: seq<Entry>, e: Entry): seq<Entry> {
    InsertAt(list, Position(EntryValues(list), e.value), e)
  }

  ghost function Ids(list: seq<Entry>): set<nat> { set i | 0 <= i < |list| :: list[i].id }

  ghost predicate Unique(list: seq<Entry>) {
    forall i, j :: 0 <= i < j < |list| ==> list[i].id != list[j].id
  }

  /** Every entry's true expiry lies in the given epoch and wraps to its value. */
  ghost predicate InEpoch(list: seq<Entry>, clocks: ClockTable, epoch: nat) {
    forall i :: 0 <= i < |list| ==>
      list[i].id in clocks && clocks[list[i].id].expiry == epoch * TWO32 + list[i].value
  }

  ghost predicate GoodList(list: seq<Entry>, clocks: ClockTable, epoch: nat) {
    Sorted(EntryValues(list)) && Unique(list) && InEpoch(list, clocks, epoch)
  }

  lemma ListInsertKeepsGood(list: seq<Entry>, e: Entry, clocks: ClockTable, epoch: nat)
    requires GoodList(list, clocks, epoch) && e.id !in Ids(list)
    requires e.id in clocks && clocks[e.id].expiry == epoch * TWO32 + e.value
    ensures GoodList(ListInsert(list, e), clocks, epoch)
    ensures Ids(ListInsert(list, e)) == Ids(list) + {e.id}
    ensures |ListInsert(list, e)| == |list| + 1
  {
    hide Position, EntryValues, Sorted;
    var k := Position(EntryValues(list), e.value);
    InsertKeepsSorted(EntryValues(list), e.value);
    var r := ListInsert(list, e);
    assert EntryValues(r) == InsertAt(EntryValues(list), k, e.value);
    InsertAtIndex(list, k, e);
    IdsOfInsert(list, k, e);
  }

  lemma IdsOfInsert(list: seq<Entry>, k: nat, e: Entry)
    requires k <= |list|
    ensures Ids(InsertAt(list, k, e)) == Ids(list) + {e.id}
  {
    var r := InsertAt(list, k, e);
    InsertAtIndex(list, k, e);
    forall id | id in Ids(list)
      ensures id in Ids(r)
    {
      var i :| 0 <= i < |list| && list[i].id == id;
      assert r[if i < k then i else i + 1].id == id;
    }
    assert r[k].id == e.id;
  }

  lemma TakeOutKeepsGood(list: seq<Entry>, k: nat, clocks: ClockTable, epoch: nat)
    requires GoodList(list, clocks, epoch) && k < |list|
    ensures GoodList(Without(list, k), clocks, epoch)
    ensures Ids(Without(list, k)) == Ids(list) - {list[k].id} && list[k].id in Ids(list)
    ensures |Without(list, k)| == |list| - 1
  {
    hide EntryValues, Sorted;
    var r := Without(list, k);
    WithoutIndex(list, k);
    RemoveKeepsSorted(EntryValues(list), k);
    assert EntryValues(r) == EntryValues(list)[..k] + EntryValues(list)[k + 1..];
    forall id | id in Ids(list) && id != list[k].id
      ensures id in Ids(r)
    {
      var i :| 0 <= i < |list| && list[i].id == id;
      assert r[if i < k then i else i - 1].id == id;
    }
  }

  // Entries of other timers do not notice a change of one clock.
  lemma OtherClock(list: seq<Entry>, clocks: ClockTable, epoch: nat, id: nat, c: Clock)
    requires GoodList(list, clocks, epoch) && id !in Ids(list)
    ensures GoodList(list, clocks[id := c], epoch)
  {
    forall i | 0 <= i < |list|
      ensures list[i].id != id
    {
      assert list[i].id in Ids(list);
    }
  }

  // ---- clocks ----

  /** Every callback of an active timer has been made for one elapsed period, and the next one
      is due a whole number of periods after the start: no drift. */
  ghost predicate OnTime(t: Timer, c: Clock, now: nat) {
    t.active ==>
      && c.expiry == c.start + (c.fired + 1) * t.period
      && c.start + c.fired * t.period <= now
      && (!t.autoReload ==> c.fired == 0)
  }

  /** For an auto-reload timer that is not due, the number of callbacks is exactly the number of
      whole periods since its start. */
  lemma OneCallbackPerPeriod(t: Timer, c: Clock, now: nat)
    requires OnTime(t, c, now) && t.active && t.period > 0 && c.expiry > now
    ensures c.start <= now && c.fired == (now - c.start) / t.period
  {
    var p, k := t.period, c.fired;
    assert (k + 1) * p == k * p + p;
    assert k * p >= 0;
    DivModUnique(now - c.start, p, k, now - c.start - k * p);
  }

  // ---- the service task ----

  class TimerService {
    var timers: TimerTable
    var current: seq<Entry>
    var overflow: seq<Entry>
    var lastTime: u32
    // The timers whose callbacks have been called, in order.
    ghost var calls: seq<nat>
    ghost var clocks: ClockTable
    ghost var epoch: nat
    // True time of the last sample.
    ghost var now: nat

    ghost predicate Valid()
      reads this
    {
      Sampled({})
    }

    // The state right after time has been sampled, while the timers of moving are in no list.
    ghost predicate Sampled(moving: set<nat>)
      reads this
    {
      && now == epoch * TWO32 + lastTime
      && ListsBut(now, moving)
      && CallsCounted(calls, clocks)
    }

    // The invariant of lists and clocks at true time t, but for timers that are being moved.
    ghost predicate ListsBut(t: nat, moving: set<nat>)
      reads this`timers, this`clocks, this`current, this`overflow, this`epoch
    {
      && clocks.Keys == timers.Keys
      && GoodList(current, clocks, epoch) && GoodList(overflow, clocks, epoch + 1)
      && Ids(current) !! Ids(overflow) && moving !! Ids(current) + Ids(overflow)
      && (forall id :: id in timers ==> timers[id].period > 0)
      && (forall id :: id in timers && id !in moving ==>
            && (timers[id].active <==> id in Ids(current) + Ids(overflow))
            && OnTime(timers[id], clocks[id], t))
    }

    // True time t is in the epoch of the current list.
    ghost predicate Present(t: nat)
      reads this`epoch
    {
      epoch * TWO32 <= t < (epoch + 1) * TWO32
    }

    constructor ()
      ensures Valid() && timers == map[] && calls == []
    {
      timers, current, overflow, lastTime := map[], [], [], 0;
      calls, clocks, epoch, now := [], map[], 0, 0;
    }

    /** prvInitialiseNewTimer: a new timer is in no list. */
    method Create(id: nat, period: u32, autoReload: bool, isStatic: bool)
      requires Valid() && id !in timers && period > 0
      modifies this`timers, this`clocks
      ensures Valid() && timers == old(timers)[id := Timer(period, autoReload, false, isStatic)]
    {
      hide GoodList, OnTime, Ids;
      ListedHaveClocks();
      ghost var c := Clock(0, 0, 0, multiset(calls)[id]);
      OtherClock(current, clocks, epoch, id, c);
      OtherClock(overflow, clocks, epoch + 1, id, c);
      DormantIsOnTime(Timer(period, autoReload, false, isStatic), c, now);
      timers := timers[id := Timer(period, autoReload, false, isStatic)];
      clocks := clocks[id := c];
    }

    lemma ListedHaveClocks()
      requires ListsBut(now, {})
      ensures Ids(current) <= clocks.Keys && Ids(overflow) <= clocks.Keys
    {
    }

    // ---- insertion and expiry ----

    /** prvInsertTimerInActiveList: inserts the timer that is being moved, unless it is due. */
    method InsertInActiveList(id: nat, nextExpiry: u32, timeNow: u32, commandTime: u32,
                              ghost command: nat, ghost t: nat, ghost moving: set<nat>)
      returns (processNow: bool)
      requires ListsBut(t, moving) && id in moving && Present(t) && id in timers && timers[id].active
      requires command <= t < command + TWO32
      requires commandTime == Wrap32(command) && timeNow == Wrap32(t)
      requires nextExpiry == Wrap32(command + timers[id].period)
      requires command == clocks[id].start + clocks[id].fired * timers[id].period
      requires timers[id].autoReload || clocks[id].fired == 0
      modifies this`current, this`overflow, this`clocks
      ensures processNow <==> command + timers[id].period <= t
      ensures processNow ==> unchanged(this)
      ensures !processNow ==> ListsBut(t, moving - {id})
      ensures !processNow ==> clocks == old(clocks)[id := old(clocks)[id].(expiry := command + timers[id].period)]
      ensures !processNow ==> Ids(current) <= old(Ids(current)) + {id}
      ensures !processNow && command + timers[id].period >= (epoch + 1) * TWO32 ==> current == old(current)
    {
      hide GoodList, ListInsert, Ids, ProcessNow, OnTime;
      var period := timers[id].period;
      InsertDecision(command, t, period);
      EpochOf(t);
      processNow := false;
      var entry := Entry(id, nextExpiry);
      ghost var clock := clocks[id].(expiry := command + period);
      DecisionIs(nextExpiry, timeNow, commandTime, period);
      if nextExpiry <= timeNow {
        if Sub32(timeNow, commandTime) >= period {
          processNow := true;
          return;
        }
      } else {
        if timeNow < commandTime && nextExpiry >= commandTime {
          processNow := true;
          return;
        }
      }
      OtherClock(current, clocks, epoch, id, clock);
      OtherClock(overflow, clocks, epoch + 1, id, clock);
      clocks := clocks[id := clock];
      OnTimeAgain(timers[id], clock, command, t);
      if nextExpiry <= timeNow {
        ListInsertKeepsGood(overflow, entry, clocks, epoch + 1);
        overflow := ListInsert(overflow, entry);
      } else {
        ListInsertKeepsGood(current, entry, clocks, epoch);
        current := ListInsert(current, entry);
      }
    }

    // Epoch arithmetic of the present.
    lemma EpochOf(t: nat)
      requires Present(t)
      ensures t / TWO32 == epoch && t == epoch * TWO32 + Wrap32(t)
    {
      DivModUnique(t, TWO32, epoch, t - epoch * TWO32);
    }

    /** prvReloadTimer: one callback for every period that has already passed, then insertion. */
    method ReloadTimer(id: nat, expiredTime: u32, timeNow: u32, ghost expired: nat, ghost t: nat,
                       ghost moving: set<nat>)
      returns (ghost k: nat)
      requires ListsBut(t, moving) && id in moving && Present(t)
      requires id in timers && timers[id].active && timers[id].autoReload
      requires expired <= t < expired + TWO32
      requires expiredTime == Wrap32(expired) && timeNow == Wrap32(t)
      requires expired == clocks[id].start + clocks[id].fired * timers[id].period
      modifies this`current, this`overflow, this`clocks, this`calls
      ensures ListsBut(t, moving - {id}) && calls == old(calls) + Repeat(id, k)
      ensures expired + k * timers[id].period <= t < expired + (k + 1) * timers[id].period
      ensures var c := old(clocks)[id];
              clocks == old(clocks)[id := Clock(c.start, c.fired + k, expired + (k + 1) * timers[id].period, c.base)]
      ensures Ids(current) <= old(Ids(current)) + {id}
      ensures clocks[id].expiry >= (epoch + 1) * TWO32 ==> current == old(current)
    {
      hide ListsBut, Ids, Wrap32;
      var period := timers[id].period;
      MovingHasPeriod(t, id, moving);
      var x := expiredTime;
      k := 0;
      ghost var at, first := expired, clocks[id];
      while true
        invariant timers == old(timers) && epoch == old(epoch) && Present(t)
        invariant ListsBut(t, moving) && current == old(current) && overflow == old(overflow)
        invariant at == expired + k * period && at <= t && x == Wrap32(at)
        invariant at == first.start + (first.fired + k) * period
        invariant calls == old(calls) + Repeat(id, k)
        invariant clocks == old(clocks)[id := first.(fired := first.fired + k)]
        decreases t - at
      {
        Add32Exact(at, period);
        OneMore(period, k, first.fired);
        var due := InsertInActiveList(id, Add32(x, period), timeNow, x, at, t, moving);
        if !due {
          break;
        }
        x := Add32(x, period);
        at := at + period;
        RepeatOneMore(id, k);
        k := k + 1;
        calls := calls + [id];
        SetClock(t, id, first.(fired := first.fired + k), moving);
      }
    }

    lemma MovingHasPeriod(t: nat, id: nat, moving: set<nat>)
      requires ListsBut(t, moving) && id in timers
      ensures timers[id].period > 0 && id in clocks && clocks.Keys == timers.Keys
    {
    }

    // The clock and the fields of a timer that is being moved may change.
    ghost method SetClock(t: nat, id: nat, c: Clock, moving: set<nat>)
      requires ListsBut(t, moving) && id in moving && id in timers
      modifies this`clocks
      ensures ListsBut(t, moving) && clocks == old(clocks)[id := c]
    {
      hide GoodList;
      OtherClock(current, clocks, epoch, id, c);
      OtherClock(overflow, clocks, epoch + 1, id, c);
      clocks := clocks[id := c];
    }

    method SetTimer(id: nat, timer: Timer, ghost t: nat, ghost moving: set<nat>)
      requires ListsBut(t, moving) && id in moving && id in timers && timer.period > 0
      modifies this`timers
      ensures ListsBut(t, moving) && timers == old(timers)[id := timer]
    {
      hide GoodList, Ids, OnTime;
      timers := timers[id := timer];
    }

    // An inactive timer need not be in a list.
    lemma NotMoving(t: nat, id: nat, moving: set<nat>)
      requires ListsBut(t, moving) && id in moving && (id in timers ==> !timers[id].active)
      ensures ListsBut(t, moving - {id})
    {
      hide GoodList, Ids, OnTime;
      if id in timers {
        DormantIsOnTime(timers[id], clocks[id], t);
      }
    }

    /** prvProcessExpiredTimer: the head of the current list, due at t, is taken out, reloaded if
        it is auto-reload, and called back. */
    method ProcessExpired(nextExpireTime: u32, timeNow: u32, ghost t: nat, ghost moving: set<nat>)
      requires ListsBut(t, moving) && Present(t) && timeNow == Wrap32(t) && CallsCounted(calls, clocks)
      requires current != [] && nextExpireTime == current[0].value <= timeNow
      modifies this`timers, this`current, this`overflow, this`clocks, this`calls
      ensures ListsBut(t, moving) && CallsCounted(calls, clocks)
      ensures var id := old(current)[0].id;
              && id in old(timers) && id in old(clocks) && id in timers && id in clocks && id !in moving
              && Fired(id, old(timers)[id], old(clocks)[id], old(calls), timers[id], clocks[id], calls, t)
              && timers == old(timers)[id := timers[id]] && clocks == old(clocks)[id := clocks[id]]
              && id in old(Ids(current)) && old(timers)[id].active && Ids(current) <= old(Ids(current))
              && (clocks[id].expiry >= (epoch + 1) * TWO32 || !timers[id].active ==>
                    current == old(current)[1..])
    {
      hide Wrap32, ListsBut, Ids, Fired, CallsCounted;
      var id := TakeHead(t, moving);
      ghost var all := moving + {id};
      assert all - {id} == moving;
      EpochOf(t);
      MovingHasPeriod(t, id, all);
      ghost var timer, clock := timers[id], clocks[id];
      assert timers == old(timers) && clocks == old(clocks) && calls == old(calls);
      WrapOf(epoch, nextExpireTime);
      if timers[id].autoReload {
        SetClock(t, id, clock.(fired := clock.fired + 1), all);
        ghost var k := ReloadTimer(id, nextExpireTime, timeNow, clock.expiry, t, all);
        calls := calls + [id];
        FiredAfterReload(id, timer, clock, old(calls), clocks[id], calls, t, k);
        assert timers == old(timers) == old(timers)[id := timer];
      } else {
        SetClock(t, id, clock.(fired := clock.fired + 1), all);
        SetTimer(id, timers[id].(active := false), t, all);
        NotMoving(t, id, all);
        calls := calls + [id];
        FiredOnce(id, timer, clock, old(calls), t);
      }
      CountFired(id, timer, old(clocks), old(calls), timers[id], clocks, calls, t);
    }

    // uxListRemove of the head of the current list.
    method TakeHead(ghost t: nat, ghost moving: set<nat>) returns (id: nat)
      requires ListsBut(t, moving) && current != []
      modifies this`current
      ensures id == old(current)[0].id && current == old(current)[1..]
      ensures id !in moving && ListsBut(t, moving + {id}) && id in timers && id in clocks && timers[id].active
      ensures clocks[id].expiry == epoch * TWO32 + old(current)[0].value
      ensures OnTime(timers[id], clocks[id], t)
      ensures Ids(current) == old(Ids(current)) - {id} && id in old(Ids(current))
    {
      hide GoodList, OnTime, Ids;
      id := current[0].id;
      TakeOutKeepsGood(current, 0, clocks, epoch);
      HeadExpiry(current, clocks, epoch);
      assert id in Ids(current) && id !in Ids(overflow) && id !in moving;
      assert Without(current, 0) == current[1..];
      current := current[1..];
      assert Ids(current) == old(Ids(current)) - {id};
      assert Ids(current) !! Ids(overflow);
      assert moving + {id} !! Ids(current) + Ids(overflow);
      forall other | other in timers && other !in moving + {id}
        ensures timers[other].active <==> other in Ids(current) + Ids(overflow)
        ensures OnTime(timers[other], clocks[other], t)
      {
        assert other in Ids(current) <==> other in old(Ids(current));
      }
    }

    // ---- time ----

    /** prvSwitchTimerLists: everything left in the current list is processed as of the last tick
        of its epoch; each timer leaves the list, so the loop ends, and the lists change places. */
    method SwitchLists(ghost end: nat, ghost moving: set<nat>)
      requires ListsBut(end, moving) && end == (epoch + 1) * TWO32 - 1 && CallsCounted(calls, clocks)
      modifies this`timers, this`current, this`overflow, this`clocks, this`calls, this`epoch
      ensures ListsBut(end, moving) && CallsCounted(calls, clocks)
      ensures epoch == old(epoch) + 1 && overflow == []
      ensures AllAged(old(timers), old(clocks), timers, clocks, moving, end)
      ensures Passed(old(timers), old(clocks), timers, clocks, moving, true, end)
      ensures OnlyListedCalled(old(calls), calls, clocks)
      ensures old(current) == [] ==>
                timers == old(timers) && clocks == old(clocks) && calls == old(calls) && current == old(overflow)
    {
      hide ListsBut, CallsCounted, Fired, Aged, AllAged, Passed, OnlyListedCalled;
      LastTick(epoch, end);
      NotAged(timers, clocks, moving, end);
      NoneCalled(calls, clocks);
      while current != []
        invariant ListsBut(end, moving) && CallsCounted(calls, clocks) && epoch == old(epoch)
        invariant AllAged(old(timers), old(clocks), timers, clocks, moving, end)
        invariant OnlyListedCalled(old(calls), calls, clocks)
        invariant old(current) == [] ==>
                    current == [] && timers == old(timers) && clocks == old(clocks) && calls == old(calls)
                      && overflow == old(overflow)
        decreases |current|
      {
        ghost var id, timer, clock, before := current[0].id, timers, clocks, calls;
        ProcessExpired(current[0].value, MAX_DELAY, end, moving);
        FiredMovesOn(id, timer[id], clock[id], before, timers[id], clocks[id], calls, end);
        OneAged(id, timer, clock, timers, clocks, before, calls, moving, end);
        AgedThrough(old(timers), old(clocks), timer, clock, timers, clocks, moving, end, end);
        FiredIsCalled(id, timer[id], clock[id], before, timers[id], clocks[id], calls, end);
        CalledAgain(old(calls), before, calls, id, clock, clocks);
      }
      ExchangeLists(end, moving);
      NoneDueAtEnd(old(timers), old(clocks), end, moving);
    }

    // Right after the lists have changed places nothing is due as of the epoch's last tick.
    lemma NoneDueAtEnd(timers0: TimerTable, clocks0: ClockTable, end: nat, moving: set<nat>)
      requires ListsBut(end, moving) && end == epoch * TWO32 - 1 && overflow == []
      requires AllAged(timers0, clocks0, timers, clocks, moving, end)
      ensures Passed(timers0, clocks0, timers, clocks, moving, true, end)
    {
      hide Aged, OnTime;
      forall id | id in timers && id !in moving && timers[id].active
        ensures end < clocks[id].expiry
      {
        assert id in Ids(current);
      }
    }

    // With an empty current list, the lists may change places as the epoch advances.
    method ExchangeLists(ghost t: nat, ghost moving: set<nat>)
      requires ListsBut(t, moving) && current == []
      modifies this`current, this`overflow, this`epoch
      ensures ListsBut(t, moving) && epoch == old(epoch) + 1
      ensures current == old(overflow) && overflow == []
    {
      hide OnTime;
      current, overflow := overflow, current;
      epoch := epoch + 1;
      assert GoodList([], clocks, epoch + 1);
      assert Ids(overflow) == {};
    }

    /** prvSampleTimeNow: reads the tick and switches the lists when it has wrapped.  Time may not
        advance by 2^32 ticks or more between samples, unless no timer is in a list. */
    method SampleTimeNow(timeNow: u32, ghost t: nat, ghost moving: set<nat>) returns (switched: bool)
      requires Sampled(moving) && now <= t && timeNow == Wrap32(t)
      requires (current == [] && overflow == []) || t < now + TWO32
      modifies this
      ensures Sampled(moving) && now == t && lastTime == timeNow
      ensures switched <==> timeNow < old(lastTime)
      ensures AllAged(old(timers), old(clocks), timers, clocks, moving, t)
      ensures Passed(old(timers), old(clocks), timers, clocks, moving, switched, LastOfEpoch(old(now)))
      ensures OnlyListedCalled(old(calls), calls, clocks)
      ensures !switched ==> timers == old(timers) && clocks == old(clocks) && calls == old(calls)
                            && current == old(current) && overflow == old(overflow)
    {
      hide ListsBut, CallsCounted, Wrap32, Aged, AllAged, Passed, OnlyListedCalled, LastOfEpoch;
      NotAged(timers, clocks, moving, t);
      NotPassed(timers, clocks, moving, LastOfEpoch(now));
      NoneCalled(calls, clocks);
      EndOf(epoch, lastTime, now);
      ghost var idle := current == [] && overflow == [];
      switched := false;
      if timeNow < lastTime {
        ghost var end := (epoch + 1) * TWO32 - 1;
        ListsLater(now, end, moving);
        SwitchLists(end, moving);
        switched := true;
        EpochAfter(old(epoch), old(lastTime), t, timeNow);
        NotAged(timers, clocks, moving, t);
        AgedThrough(old(timers), old(clocks), timers, clocks, timers, clocks, moving, end, t);
      }
      lastTime := timeNow;
      EpochAfter(old(epoch), old(lastTime), t, timeNow);
      ghost var before := if switched then (old(epoch) + 1) * TWO32 - 1 else now;
      if idle {
        MoveEpoch(before, t / TWO32, moving);
      }
      ListsLater(before, t, moving);
      now := t;
    }

    lemma ListsLater(a: nat, b: nat, moving: set<nat>)
      requires ListsBut(a, moving) && a <= b
      ensures ListsBut(b, moving)
    {
      hide GoodList, Ids;
    }

    // Empty lists are in any epoch.
    ghost method MoveEpoch(t: nat, e: nat, moving: set<nat>)
      requires ListsBut(t, moving) && current == [] && overflow == []
      modifies this`epoch
      ensures ListsBut(t, moving) && epoch == e
    {
      epoch := e;
    }

    // ---- one round of the service task ----

    /** prvGetNextExpireTime. */
    method GetNextExpireTime() returns (time: u32, empty: bool)
      ensures empty <==> current == []
      ensures time == if empty then 0 else current[0].value
    {
      empty := current == [];
      time := 0;
      if !empty {
        time := current[0].value;
      }
    }

    // No active timer expires before true time t.
    ghost predicate NoneBefore(t: nat)
      reads this`timers, this`clocks
    {
      forall id :: id in timers && id in clocks && timers[id].active ==> t <= clocks[id].expiry
    }

    ghost predicate NoneActive()
      reads this`timers
    {
      forall id :: id in timers ==> !timers[id].active
    }

    ghost predicate SomeExpiresAt(t: nat)
      reads this`timers, this`clocks
    {
      exists id :: id in timers && id in clocks && timers[id].active && clocks[id].expiry == t
    }

    /** prvProcessTimerOrBlockTask.  The service task goes to sleep only when nothing is due, and
        never past the earliest expiry; while a timer is in the current list it wakes exactly at
        the earliest one, and it sleeps without limit only if no timer is active. */
    method ProcessTimerOrBlock(nextExpireTime: u32, listWasEmpty: bool, timeNow: u32, ghost t: nat)
      returns (outcome: Outcome)
      requires Valid() && now <= t && timeNow == Wrap32(t)
      requires (current == [] && overflow == []) || t < now + TWO32
      requires listWasEmpty <==> current == []
      requires nextExpireTime == if listWasEmpty then 0 else current[0].value
      modifies this
      ensures Valid() && now == t && lastTime == timeNow
      ensures AllAged(old(timers), old(clocks), timers, clocks, {}, t)
      ensures outcome.Switched? <==> timeNow < old(lastTime)
      ensures outcome.Switched? ==> Passed(old(timers), old(clocks), timers, clocks, {}, true, LastOfEpoch(old(now)))
      ensures outcome.Processed? <==> timeNow >= old(lastTime) && !listWasEmpty && nextExpireTime <= timeNow
      ensures outcome.Processed? ==> DueSet(current, clocks, t) < old(DueSet(current, clocks, t))
      ensures outcome.Processed? ==>
                FirstFires(old(timers), old(clocks), old(calls), timers, clocks, calls, t)
      ensures OnlyListedCalled(old(calls), calls, clocks)
      ensures outcome.Blocked? ==>
                && timers == old(timers) && clocks == old(clocks) && calls == old(calls) && current == old(current)
      ensures outcome.Blocked? ==> NoneBefore(t + 1) && NoneBefore(t + outcome.ticks)
      ensures outcome.Blocked? ==> (outcome.indefinitely <==> NoneActive())
      ensures outcome.Blocked? && !listWasEmpty ==> outcome.ticks > 0 && SomeExpiresAt(t + outcome.ticks)
    {
      hide ListsBut, CallsCounted, Wrap32, Aged, AllAged, Fired, DueSet, NoneBefore, NoneActive, SomeExpiresAt,
           Sub32, Ids, Passed, OnlyListedCalled, FirstFires, LastOfEpoch;
      var switched := SampleTimeNow(timeNow, t, {});
      assert Present(t);
      if switched {
        outcome := Switched;
      } else if !listWasEmpty && nextExpireTime <= timeNow {
        HeadIsDue(t);
        ghost var id, timer, clock, before := current[0].id, timers, clocks, calls;
        HeadIsEarliest(t);
        ProcessExpired(nextExpireTime, timeNow, t, {});
        FirstHasFired(id, timer, clock, before, timers, clocks, calls, t);
        FiredMovesOn(id, timer[id], clock[id], before, timers[id], clocks[id], calls, t);
        OneAged(id, timer, clock, timers, clocks, before, calls, {}, t);
        AgedThrough(old(timers), old(clocks), timer, clock, timers, clocks, {}, t, t);
        outcome := Processed;
        if !timers[id].active {
          InactiveUnlisted(t, id);
        }
        LessDue(old(current), current, clock, clocks, id, t);
      } else {
        var indefinitely := false;
        if listWasEmpty {
          indefinitely := overflow == [];
        }
        var ticks := Sub32(nextExpireTime, timeNow);
        outcome := Blocked(ticks, indefinitely);
        SleepIsSound(t, timeNow, nextExpireTime, ticks);
      }
    }

    lemma HeadIsDue(t: nat)
      requires ListsBut(t, {}) && Present(t) && current != [] && current[0].value <= Wrap32(t)
      ensures current[0].id in clocks && clocks[current[0].id].expiry <= t
    {
      EpochOf(t);
    }

    // The head of the current list expires before all other active timers.
    lemma HeadIsEarliest(t: nat)
      requires ListsBut(t, {}) && current != []
      ensures current[0].id in timers && current[0].id in clocks
      ensures Earliest(timers, clocks, current[0].id)
    {
      hide OnTime, GoodList, Ids;
      ListedHead(current);
      HeadIsFirst(current, clocks, epoch, current[0].id);
      forall other | other in timers && other in clocks && timers[other].active
        ensures clocks[current[0].id].expiry <= clocks[other].expiry
      {
        if other in Ids(current) {
          HeadIsFirst(current, clocks, epoch, other);
        } else {
          assert other in Ids(overflow);
          HeadIsFirst(overflow, clocks, epoch + 1, other);
        }
      }
    }

    lemma InactiveUnlisted(t: nat, id: nat)
      requires ListsBut(t, {}) && id in timers && !timers[id].active
      ensures id !in Ids(current)
    {
    }

    lemma SleepIsSound(t: nat, timeNow: u32, next: u32, ticks: u32)
      requires ListsBut(t, {}) && Present(t) && timeNow == Wrap32(t)
      requires next == if current == [] then 0 else current[0].value
      requires ticks == Sub32(next, timeNow) && (current != [] ==> next > timeNow)
      ensures NoneBefore(t + 1) && NoneBefore(t + ticks)
      ensures NoneActive() <==> current == [] && overflow == []
      ensures current != [] ==> ticks > 0 && SomeExpiresAt(t + ticks)
    {
      hide OnTime, GoodList, Ids;
      EpochOf(t);
      forall id | id in timers && timers[id].active
        ensures t + 1 <= clocks[id].expiry && t + ticks <= clocks[id].expiry && (current != [] || overflow != [])
      {
        assert id in Ids(current) + Ids(overflow);
        if id in Ids(current) {
          HeadIsFirst(current, clocks, epoch, id);
        } else {
          HeadIsFirst(overflow, clocks, epoch + 1, id);
        }
      }
      ListedHead(current);
      ListedHead(overflow);
      if current != [] {
        HeadIsFirst(current, clocks, epoch, current[0].id);
      }
      if overflow != [] {
        HeadIsFirst(overflow, clocks, epoch + 1, overflow[0].id);
      }
    }

    lemma AgedIsUpToDate(id: nat, timers0: TimerTable, clocks0: ClockTable, t: nat)
      requires Valid() && now == t && NoneBefore(t + 1)
      requires AllAged(timers0, clocks0, timers, clocks, {}, t) && id in timers0 && id in clocks0
      ensures id in timers && id in clocks
      ensures UpToDate(timers0[id], clocks0[id], timers[id], clocks[id], multiset(calls)[id], t)
    {
      hide GoodList, Ids;
      if timers0[id].active && timers0[id].autoReload {
        OneCallbackPerPeriod(timers[id], clocks[id], t);
      }
    }

    /** The service task left to itself at one time: it samples, switches the lists if the tick has
        wrapped, and processes timers until it goes to sleep.  Then nothing is due, every active
        auto-reload timer has had exactly one callback for each period since its start, and a
        one-shot timer has had its one callback exactly when its expiry has passed. */
    method CatchUp(timeNow: u32, ghost t: nat) returns (outcome: Outcome)
      requires Valid() && now <= t && timeNow == Wrap32(t)
      requires (current == [] && overflow == []) || t < now + TWO32
      modifies this
      ensures Valid() && now == t && outcome.Blocked? && NoneBefore(t + 1) && NoneBefore(t + outcome.ticks)
      ensures AllAged(old(timers), old(clocks), timers, clocks, {}, t)
      ensures forall id :: id in old(timers) && id in old(clocks) ==>
                && id in timers && id in clocks
                && UpToDate(old(timers)[id], old(clocks)[id], timers[id], clocks[id], multiset(calls)[id], t)
    {
      hide ListsBut, CallsCounted, Wrap32, Aged, AllAged, DueSet, NoneBefore, NoneActive, SomeExpiresAt, UpToDate;
      NotAged(timers, clocks, {}, now);
      outcome := Switched;
      ghost var sampled := false;
      while !outcome.Blocked?
        invariant Valid() && now <= t && AllAged(old(timers), old(clocks), timers, clocks, {}, now)
        invariant sampled ==> now == t && lastTime == timeNow
        invariant !sampled ==> timers == old(timers) && clocks == old(clocks) && now == old(now)
        invariant (current == [] && overflow == []) || t < now + TWO32
        invariant outcome.Blocked? ==> sampled && NoneBefore(t + 1) && NoneBefore(t + outcome.ticks)
        decreases !sampled, DueSet(current, clocks, t), !outcome.Blocked?
      {
        ghost var timer, clock := timers, clocks;
        ghost var last := now;
        var next, empty := GetNextExpireTime();
        outcome := ProcessTimerOrBlock(next, empty, timeNow, t);
        AgedThrough(old(timers), old(clocks), timer, clock, timers, clocks, {}, last, t);
        sampled := true;
      }
      forall id | id in old(timers) && id in old(clocks)
        ensures id in timers && id in clocks
        ensures UpToDate(old(timers)[id], old(clocks)[id], timers[id], clocks[id], multiset(calls)[id], t)
      {
        AgedIsUpToDate(id, old(timers), old(clocks), t);
      }
    }

    // ---- commands ----

    /** The first step of every command: the timer leaves the list it is in, if any. */
    method RemoveFromList(id: nat)
      requires ListsBut(now, {}) && id in timers
      modifies this`current, this`overflow
      ensures ListsBut(now, {id})
      ensures old(current) == [] && old(overflow) == [] ==> current == [] && overflow == []
    {
      hide GoodList, OnTime, Ids;
      if k :| 0 <= k < |current| && current[k].id == id {
        TakeOutKeepsGood(current, k, clocks, epoch);
        current := Without(current, k);
      } else if j :| 0 <= j < |overflow| && overflow[j].id == id {
        TakeOutKeepsGood(overflow, j, clocks, epoch + 1);
        overflow := Without(overflow, j);
        Unlisted(current, id);
      } else {
        Unlisted(current, id);
        Unlisted(overflow, id);
      }
      forall other | other in timers && other != id
        ensures timers[other].active <==> other in Ids(current) + Ids(overflow)
      {
        assert other in Ids(current) <==> other in old(Ids(current));
        assert other in Ids(overflow) <==> other in old(Ids(overflow));
      }
    }

    /** One command of prvProcessReceivedCommands.  The command's own timer leaves its list before
        time is sampled, so a switch of the lists at that moment does not fire it. */
    method ProcessCommand(command: Command, timeNow: u32, ghost issued: nat, ghost t: nat)
      requires Valid() && command.id in timers && now <= t && timeNow == Wrap32(t)
      requires (current == [] && overflow == []) || t < now + TWO32
      requires command.Start? ==> issued <= t < issued + TWO32 && command.value == Wrap32(issued)
      requires command.ChangePeriod? ==> command.newPeriod > 0
      modifies this
      ensures Valid() && now == t
      ensures Obeyed(command, old(timers)[command.id], old(multiset(calls)[command.id]), timers, clocks, issued, t)
      ensures forall id :: id in old(timers) && id in old(clocks) && id != command.id ==>
                id in timers && id in clocks && Aged(old(timers)[id], old(clocks)[id], timers[id], clocks[id], t)
      ensures Passed(old(timers), old(clocks), timers, clocks, {command.id}, timeNow < old(lastTime),
                     LastOfEpoch(old(now)))
      ensures OnlyListedCalled(old(calls), calls, clocks)
      ensures timers.Keys <= old(timers.Keys)
    {
      hide ListsBut, CallsCounted, Wrap32, Aged, AllAged, Obeyed, OnlyChanged, Passed, OnlyListedCalled, LastOfEpoch;
      var id := command.id;
      MovingHasPeriod(now, id, {});
      RemoveFromList(id);
      var switched := SampleTimeNow(timeNow, t, {id});
      SampledKeeps(id, old(timers), old(clocks), old(calls), timers, clocks, calls, t);
      label sampled:
      match command {
        case Start(_, value) => StartTimer(id, value, timeNow, issued, t);
        case Stop(_) =>
          StopTimer(id, t);
          IssueDoesNotMatter(command, old@sampled(timers)[id], multiset(calls)[id], timers, clocks, t, issued);
        case ChangePeriod(_, newPeriod) =>
          SetPeriod(id, newPeriod, timeNow, t);
          IssueDoesNotMatter(command, old@sampled(timers)[id], multiset(calls)[id], timers, clocks, t, issued);
        case Delete(_) =>
          DeleteTimer(id, t);
          IssueDoesNotMatter(command, old@sampled(timers)[id], multiset(calls)[id], timers, clocks, t, issued);
      }
      OthersAged(id, old(timers), old(clocks), old@sampled(timers), old@sampled(clocks), timers, clocks, t);
      OthersPassed(id, old(timers), old(clocks), old@sampled(timers), old@sampled(clocks), timers, clocks, switched,
                   LastOfEpoch(old(now)));
      OnlyListedAgain(id, old(calls), old@sampled(calls), calls, old@sampled(timers), old@sampled(clocks),
                      timers, clocks);
    }

    // tmrCOMMAND_START and tmrCOMMAND_RESET.
    method StartTimer(id: nat, value: u32, timeNow: u32, ghost issued: nat, ghost t: nat)
      requires Sampled({id}) && id in timers && now == t && timeNow == Wrap32(t)
      requires issued <= t < issued + TWO32 && value == Wrap32(issued)
      modifies this`timers, this`current, this`overflow, this`clocks, this`calls
      ensures Valid()
      ensures Obeyed(Start(id, value), old(timers)[id], old(multiset(calls)[id]), timers, clocks, issued, t)
      ensures OnlyChanged(id, old(timers), old(clocks), timers, clocks)
      ensures OnlyListedCalled(old(calls), calls, clocks)
    {
      hide ListsBut, CallsCounted, CountedBut, Wrap32, Obeyed, OnlyChanged, Ids, Add32, OnlyListedCalled;
      MovingHasPeriod(t, id, {id});
      var timer := timers[id];
      ghost var base := multiset(calls)[id];
      assert {id} - {id} == {};
      assert Present(t);
      Add32Exact(issued, timer.period);
      Activate(id, timer.(active := true), issued, t);
      var due := InsertInActiveList(id, Add32(value, timer.period), timeNow, value, issued, t, {id});
      if due {
        StartLate(id, value, timeNow, issued, t);
      } else {
        assert clocks == old(clocks)[id := clocks[id]];
        NoneCalled(calls, clocks);
        CountedAgain(id, calls, 0, calls, old(clocks), clocks);
      }
      StartedIsObeyed(id, value, timer, base, old(timers), timers, old(clocks), clocks, issued, t);
    }

    // The timer counts as active from the moment its clock starts.
    method Activate(id: nat, timer: Timer, ghost start: nat, ghost t: nat)
      requires ListsBut(t, {id}) && CallsCounted(calls, clocks) && id in timers && timer.period > 0
      modifies this`timers, this`clocks
      ensures ListsBut(t, {id}) && CountedBut(id, calls, clocks)
      ensures id in old(clocks) && CountedBut(id, calls, old(clocks))
      ensures timers == old(timers)[id := timer]
      ensures clocks == old(clocks)[id := Clock(start, 0, 0, multiset(calls)[id])]
    {
      hide ListsBut, CallsCounted, CountedBut;
      MovingHasPeriod(t, id, {id});
      ghost var clock := Clock(start, 0, 0, multiset(calls)[id]);
      CountedIsBut(id, calls, clocks, clock);
      SetTimer(id, timer, t, {id});
      SetClock(t, id, clock, {id});
    }

    // A one-shot timer that has expired, or a stopped one.
    method GoDormant(id: nat, ghost t: nat)
      requires ListsBut(t, {id}) && id in timers
      modifies this`timers
      ensures ListsBut(t, {}) && timers == old(timers)[id := old(timers)[id].(active := false)]
    {
      hide ListsBut;
      MovingHasPeriod(t, id, {id});
      assert {id} - {id} == {};
      SetTimer(id, timers[id].(active := false), t, {id});
      NotMoving(t, id, {id});
    }

    // The timer has expired before its start was processed: the callbacks missed are made now.
    method StartLate(id: nat, value: u32, timeNow: u32, ghost issued: nat, ghost t: nat)
      requires ListsBut(t, {id}) && Present(t) && id in timers && id in clocks && timers[id].active
               && timeNow == Wrap32(t)
      requires issued + timers[id].period <= t < issued + TWO32 && value == Wrap32(issued)
      requires clocks[id].start == issued && clocks[id].base == multiset(calls)[id]
      requires CountedBut(id, calls, clocks)
      modifies this`timers, this`current, this`overflow, this`clocks, this`calls
      ensures ListsBut(t, {}) && CallsCounted(calls, clocks)
      ensures id in timers && id in clocks
      ensures timers == old(timers)[id := timers[id]] && clocks == old(clocks)[id := clocks[id]]
      ensures var p, c := old(timers)[id].period, clocks[id];
              && c.start == issued && c.base == old(clocks)[id].base && c.fired > 0
              && (if old(timers)[id].autoReload
                  then timers == old(timers) && issued + c.fired * p <= t < c.expiry == issued + c.fired * p + p
                  else c.fired == 1 && timers[id] == old(timers)[id].(active := false))
      ensures OnlyListedCalled(old(calls), calls, clocks)
    {
      hide ListsBut, CallsCounted, CountedBut, Wrap32, Ids, Repeat, OnlyListedCalled;
      MovingHasPeriod(t, id, {id});
      ghost var before := calls;
      if timers[id].autoReload {
        ReloadLate(id, value, timeNow, issued, t);
      } else {
        OnceLate(id, issued, t);
        RepeatNone(id);
      }
      calls := calls + [id];
      RepeatOneMore(id, clocks[id].fired - 1);
      assert calls == before + Repeat(id, clocks[id].fired);
      CountedAgain(id, before, clocks[id].fired, calls, old(clocks), clocks);
      RepeatIsCalled(before, id, clocks[id].fired, clocks);
    }

    // The expiry of a one-shot timer that passed before its start was processed.
    method OnceLate(id: nat, ghost issued: nat, ghost t: nat)
      requires ListsBut(t, {id}) && id in timers && id in clocks
      modifies this`timers, this`clocks
      ensures ListsBut(t, {}) && timers == old(timers)[id := old(timers)[id].(active := false)]
      ensures clocks == old(clocks)[id := Clock(issued, 1, 0, old(clocks)[id].base)]
    {
      hide ListsBut;
      SetClock(t, id, Clock(issued, 1, 0, clocks[id].base), {id});
      GoDormant(id, t);
    }

    // The periods of an auto-reload timer that passed before its start was processed.
    method ReloadLate(id: nat, value: u32, timeNow: u32, ghost issued: nat, ghost t: nat)
      requires ListsBut(t, {id}) && Present(t) && id in timers && id in clocks
      requires timers[id].active && timers[id].autoReload && timeNow == Wrap32(t)
      requires issued + timers[id].period <= t < issued + TWO32 && value == Wrap32(issued)
      modifies this`current, this`overflow, this`clocks, this`calls
      ensures ListsBut(t, {}) && id in clocks && clocks == old(clocks)[id := clocks[id]]
      ensures var p, c := timers[id].period, clocks[id];
              && c.start == issued && c.base == old(clocks)[id].base && c.fired > 0
              && issued + c.fired * p <= t < c.expiry == issued + c.fired * p + p
              && calls == old(calls) + Repeat(id, c.fired - 1)
    {
      hide ListsBut, Wrap32, Ids, Add32, Repeat;
      assert {id} - {id} == {};
      var period := timers[id].period;
      Add32Exact(issued, period);
      SetClock(t, id, Clock(issued, 1, 0, clocks[id].base), {id});
      assert clocks[id].fired * period == period;
      ghost var k := ReloadTimer(id, Add32(value, period), timeNow, issued + period, t, {id});
      OneMore(period, k, 0);
    }

    // tmrCOMMAND_STOP.
    method StopTimer(id: nat, ghost t: nat)
      requires Sampled({id}) && id in timers && now == t
      modifies this`timers
      ensures Valid() && Obeyed(Stop(id), old(timers)[id], multiset(calls)[id], timers, clocks, t, t)
      ensures timers == old(timers)[id := old(timers)[id].(active := false)]
      ensures OnlyChanged(id, old(timers), clocks, timers, clocks)
    {
      hide ListsBut;
      MovingHasPeriod(t, id, {id});
      GoDormant(id, t);
    }

    // tmrCOMMAND_CHANGE_PERIOD: the timer starts now, whatever it did before.
    method SetPeriod(id: nat, newPeriod: u32, timeNow: u32, ghost t: nat)
      requires Sampled({id}) && id in timers && now == t && timeNow == Wrap32(t) && newPeriod > 0
      modifies this`timers, this`current, this`overflow, this`clocks
      ensures Valid()
      ensures Obeyed(ChangePeriod(id, newPeriod), old(timers)[id], multiset(calls)[id], timers, clocks, t, t)
      ensures OnlyChanged(id, old(timers), old(clocks), timers, clocks)
    {
      hide ListsBut, CallsCounted, CountedBut, Wrap32, Ids, Add32, ProcessNow;
      MovingHasPeriod(t, id, {id});
      assert {id} - {id} == {};
      assert Present(t);
      Activate(id, timers[id].(active := true, period := newPeriod), t, t);
      Add32Exact(t, newPeriod);
      var due := InsertInActiveList(id, Add32(timeNow, newPeriod), timeNow, timeNow, t, t, {id});
      RepeatNone(id);
      CountedIsBut(id, calls, old(clocks), clocks[id]);
      CountedAgain(id, calls, 0, calls, old(clocks), clocks);
    }

    // tmrCOMMAND_DELETE: a statically allocated timer cannot be freed and only goes dormant.
    method DeleteTimer(id: nat, ghost t: nat)
      requires Sampled({id}) && id in timers && now == t
      modifies this`timers, this`clocks
      ensures Valid()
      ensures Obeyed(Delete(id), old(timers)[id], multiset(calls)[id], timers, clocks, t, t)
      ensures OnlyChanged(id, old(timers), old(clocks), timers, clocks)
    {
      hide ListsBut, CallsCounted;
      if timers[id].isStatic {
        StopTimer(id, t);
      } else {
        FreeTimer(id, t);
      }
    }

    // A dynamically allocated timer is freed.
    method FreeTimer(id: nat, ghost t: nat)
      requires Sampled({id}) && now == t
      modifies this`timers, this`clocks
      ensures Valid() && timers == old(timers) - {id} && clocks == old(clocks) - {id}
    {
      hide OnTime, Ids, GoodList;
      ClockNotNeeded(current, clocks, epoch, id);
      ClockNotNeeded(overflow, clocks, epoch + 1, id);
      timers := timers - {id};
      clocks := clocks - {id};
    }
  }

  // ---- arithmetic of epochs and callbacks ----

  lemma LastTick(epoch: nat, end: nat)
    requires end == (epoch + 1) * TWO32 - 1
    ensures Wrap32(end) == MAX_DELAY && epoch * TWO32 <= end
  {
    DivModUnique(end, TWO32, epoch, TWO32 - 1);
  }

  /** Two samples less than 2^32 ticks apart: the epoch has advanced by one exactly when the
      wrapped tick has gone down. */
  lemma EpochAfter(epoch: nat, last: u32, t: nat, timeNow: u32)
    requires epoch * TWO32 + last <= t && timeNow == Wrap32(t)
    ensures t == t / TWO32 * TWO32 + timeNow
    ensures t < epoch * TWO32 + last + TWO32 ==> t / TWO32 == if timeNow < last then epoch + 1 else epoch
    ensures timeNow < last ==> (epoch + 1) * TWO32 - 1 <= t
  {
  }

  /** The number of calls of every timer is what its clock says. */
  ghost predicate CallsCounted(calls: seq<nat>, clocks: ClockTable) {
    forall id :: id in clocks ==> multiset(calls)[id] == clocks[id].base + clocks[id].fired
  }

  /** What one expiry of a timer does: the callbacks of all periods passed by true time t, and
      the next expiry after t; a one-shot timer is called once and goes dormant. */
  ghost predicate Fired(id: nat, timer: Timer, clock: Clock, before: seq<nat>, timer2: Timer, clock2: Clock,
                        after: seq<nat>, t: nat) {
    if timer.autoReload then
      && timer2 == timer
      && exists k: nat {:trigger Repeat(id, k)} ::
           && k > 0 && after == before + Repeat(id, k)
           && clock.expiry + (k - 1) * timer.period <= t < clock.expiry + k * timer.period
           && clock2 == Clock(clock.start, clock.fired + k, clock.expiry + k * timer.period, clock.base)
    else
      && clock.expiry <= t
      && timer2 == timer.(active := false)
      && after == before + [id]
      && clock2 == clock.(fired := clock.fired + 1)
  }

  lemma FiredAfterReload(id: nat, timer: Timer, clock: Clock, before: seq<nat>, clock2: Clock,
                                            after: seq<nat>, t: nat, k: nat)
    requires timer.autoReload && after == before + Repeat(id, k) + [id]
    requires clock.expiry + k * timer.period <= t < clock.expiry + (k + 1) * timer.period
    requires clock2 == Clock(clock.start, clock.fired + 1 + k, clock.expiry + (k + 1) * timer.period, clock.base)
    ensures Fired(id, timer, clock, before, timer, clock2, after, t)
  {
    RepeatOneMore(id, k);
    assert after == before + Repeat(id, k + 1);
    assert clock.expiry + ((k + 1) - 1) * timer.period <= t;
  }

  lemma FiredOnce(id: nat, timer: Timer, clock: Clock, before: seq<nat>, t: nat)
    requires !timer.autoReload && clock.expiry <= t
    ensures Fired(id, timer, clock, before, timer.(active := false), clock.(fired := clock.fired + 1), before + [id], t)
  {
  }

  /** A timer that has fired is inactive or expires after t. */
  lemma FiredMovesOn(id: nat, timer: Timer, clock: Clock, before: seq<nat>, timer2: Timer,
                                        clock2: Clock, after: seq<nat>, t: nat)
    requires Fired(id, timer, clock, before, timer2, clock2, after, t)
    ensures !timer2.active || clock2.expiry > t
  {
  }

  /** What passing time does to a timer nobody commands: its settings and start stay; an
      auto-reload timer stays active; a one-shot timer goes dormant with one more callback, and
      only when its expiry has passed; a dormant timer stays as it is. */
  ghost predicate Aged(timer: Timer, clock: Clock, timer2: Timer, clock2: Clock, t: nat) {
    && timer2 == timer.(active := timer2.active)
    && clock2.start == clock.start && clock2.base == clock.base && clock2.fired >= clock.fired
    && (timer.autoReload || !timer.active ==> timer2 == timer)
    && (!timer.active ==> clock2 == clock)
    && (timer.active && !timer2.active ==> clock.expiry <= t && clock2 == clock.(fired := clock.fired + 1))
    && (!timer.autoReload && timer2.active ==> clock2 == clock)
  }

  ghost predicate AllAged(timers: TimerTable, clocks: ClockTable, timers2: TimerTable, clocks2: ClockTable,
                          moving: set<nat>, t: nat) {
    && timers2.Keys == timers.Keys && clocks2.Keys == clocks.Keys
    && (forall id :: id in timers && id in clocks ==>
          && Aged(timers[id], clocks[id], timers2[id], clocks2[id], t)
          && (id in moving ==> timers2[id] == timers[id] && clocks2[id] == clocks[id]))
  }

  /** The last tick of the epoch of true time t. */
  function LastOfEpoch(t: nat): nat { (t / TWO32 + 1) * TWO32 - 1 }

  lemma EndOf(epoch: nat, last: u32, now: nat)
    requires now == epoch * TWO32 + last
    ensures LastOfEpoch(now) == (epoch + 1) * TWO32 - 1
  {
    DivModUnique(now, TWO32, epoch, last);
  }

  /** What a sample of the time does: nothing, as long as the tick has not wrapped.  When it has, all
      timers but those being moved make the callbacks due at the last tick of the epoch before, and
      no others. */
  ghost predicate Passed(timers: TimerTable, clocks: ClockTable, timers2: TimerTable, clocks2: ClockTable,
                         moving: set<nat>, wrapped: bool, end: nat) {
    forall id :: id in timers && id in clocks && id !in moving ==>
      && id in timers2 && id in clocks2
      && if wrapped then AgedTo(timers[id], clocks[id], timers2[id], clocks2[id], end)
         else timers2[id] == timers[id] && clocks2[id] == clocks[id]
  }

  /** A timer nobody commands is on schedule, and not due, at the end. */
  ghost predicate AgedTo(timer: Timer, clock: Clock, timer2: Timer, clock2: Clock, end: nat) {
    Aged(timer, clock, timer2, clock2, end) && OnTime(timer2, clock2, end) && (timer2.active ==> end < clock2.expiry)
  }

  lemma NotPassed(timers: TimerTable, clocks: ClockTable, moving: set<nat>, end: nat)
    ensures Passed(timers, clocks, timers, clocks, moving, false, end)
  {
  }

  /** Callbacks are made for existing timers only. */
  ghost predicate OnlyListedCalled(before: seq<nat>, after: seq<nat>, clocks: ClockTable) {
    forall id :: id !in clocks ==> multiset(after)[id] == multiset(before)[id]
  }

  lemma NoneCalled(calls: seq<nat>, clocks: ClockTable)
    ensures OnlyListedCalled(calls, calls, clocks)
  {
  }

  lemma FiredIsCalled(id: nat, timer: Timer, clock: Clock, before: seq<nat>, timer2: Timer, clock2: Clock,
                      after: seq<nat>, t: nat)
    requires Fired(id, timer, clock, before, timer2, clock2, after, t)
    ensures exists k: nat {:trigger Repeat(id, k)} :: after == before + Repeat(id, k)
  {
    if !timer.autoReload {
      assert Repeat(id, 1) == [id];
    }
  }

  lemma RepeatIsCalled(before: seq<nat>, id: nat, k: nat, clocks: ClockTable)
    requires id in clocks
    ensures OnlyListedCalled(before, before + Repeat(id, k), clocks)
  {
    RepeatCount(id, k);
  }

  lemma CalledAgain(first: seq<nat>, before: seq<nat>, after: seq<nat>, id: nat, clocks: ClockTable,
                    clocks2: ClockTable)
    requires OnlyListedCalled(first, before, clocks) && id in clocks && clocks2.Keys == clocks.Keys
    requires exists k: nat {:trigger Repeat(id, k)} :: after == before + Repeat(id, k)
    ensures OnlyListedCalled(first, after, clocks2)
  {
    var k: nat :| after == before + Repeat(id, k);
    RepeatCount(id, k);
  }

  ghost predicate Earliest(timers: TimerTable, clocks: ClockTable, id: nat)
    requires id in clocks
  {
    forall other :: other in timers && other in clocks && timers[other].active ==>
      clocks[id].expiry <= clocks[other].expiry
  }

  /** The active timer that expires first is due and fires; nothing else changes. */
  ghost predicate FirstFires(timers: TimerTable, clocks: ClockTable, calls: seq<nat>, timers2: TimerTable,
                             clocks2: ClockTable, calls2: seq<nat>, t: nat) {
    exists id ::
      && id in timers && id in clocks && id in timers2 && id in clocks2
      && timers[id].active && clocks[id].expiry <= t && Earliest(timers, clocks, id)
      && Fired(id, timers[id], clocks[id], calls, timers2[id], clocks2[id], calls2, t)
      && timers2 == timers[id := timers2[id]] && clocks2 == clocks[id := clocks2[id]]
  }

  lemma FirstHasFired(id: nat, timers: TimerTable, clocks: ClockTable, calls: seq<nat>, timers2: TimerTable,
                      clocks2: ClockTable, calls2: seq<nat>, t: nat)
    requires id in timers && id in clocks && id in timers2 && id in clocks2
    requires timers[id].active && clocks[id].expiry <= t && Earliest(timers, clocks, id)
    requires Fired(id, timers[id], clocks[id], calls, timers2[id], clocks2[id], calls2, t)
    requires timers2 == timers[id := timers2[id]] && clocks2 == clocks[id := clocks2[id]]
    ensures FirstFires(timers, clocks, calls, timers2, clocks2, calls2, t)
    ensures OnlyListedCalled(calls, calls2, clocks2)
  {
    hide Earliest, Fired;
    FiredIsCalled(id, timers[id], clocks[id], calls, timers2[id], clocks2[id], calls2, t);
    NoneCalled(calls, clocks);
    CalledAgain(calls, calls, calls2, id, clocks, clocks2);
  }

  lemma AgedThrough(timers: TimerTable, clocks: ClockTable, timers2: TimerTable,
                                       clocks2: ClockTable, timers3: TimerTable, clocks3: ClockTable,
                                       moving: set<nat>, t: nat, t3: nat)
    requires AllAged(timers, clocks, timers2, clocks2, moving, t) && t <= t3
    requires AllAged(timers2, clocks2, timers3, clocks3, moving, t3)
    ensures AllAged(timers, clocks, timers3, clocks3, moving, t3)
  {
  }

  /** One timer fires, the others are as they were. */
  lemma OneAged(id: nat, timers: TimerTable, clocks: ClockTable, timers2: TimerTable,
                                   clocks2: ClockTable, before: seq<nat>, after: seq<nat>, moving: set<nat>, t: nat)
    requires id in timers && id in clocks && id !in moving && id in timers2 && id in clocks2 && timers[id].active
    requires timers2 == timers[id := timers2[id]] && clocks2 == clocks[id := clocks2[id]]
    requires Fired(id, timers[id], clocks[id], before, timers2[id], clocks2[id], after, t)
    ensures AllAged(timers, clocks, timers2, clocks2, moving, t)
  {
    assert Aged(timers[id], clocks[id], timers2[id], clocks2[id], t);
  }

  lemma NotAged(timers: TimerTable, clocks: ClockTable, moving: set<nat>, t: nat)
    ensures AllAged(timers, clocks, timers, clocks, moving, t)
  {
  }

  lemma CountFired(id: nat, timer: Timer, clocks: ClockTable, before: seq<nat>, timer2: Timer,
                                      clocks2: ClockTable, after: seq<nat>, t: nat)
    requires id in clocks && id in clocks2 && clocks2 == clocks[id := clocks2[id]]
    requires Fired(id, timer, clocks[id], before, timer2, clocks2[id], after, t)
    requires CallsCounted(before, clocks)
    ensures CallsCounted(after, clocks2)
  {
    if timer.autoReload {
      var k: nat :| && after == before + Repeat(id, k)
                    && clocks2[id] == Clock(clocks[id].start, clocks[id].fired + k,
                      clocks[id].expiry + k * timer.period, clocks[id].base);
      RepeatCount(id, k);
    }
  }

  lemma {:induction false} RepeatCount(id: nat, k: nat)
    ensures multiset(Repeat(id, k)) == multiset{}[id := k]
  {
    if k > 0 {
      RepeatOneMore(id, k - 1);
      RepeatCount(id, k - 1);
    } else {
      assert Repeat(id, 0) == [];
    }
  }

  lemma DormantIsOnTime(t: Timer, c: Clock, now: nat)
    requires !t.active
    ensures OnTime(t, c, now)
  {
  }

  lemma WrapOf(epoch: nat, value: u32)
    ensures Wrap32(epoch * TWO32 + value) == value
  {
    DivModUnique(epoch * TWO32 + value, TWO32, epoch, value);
  }

  lemma HeadExpiry(list: seq<Entry>, clocks: ClockTable, epoch: nat)
    requires GoodList(list, clocks, epoch) && list != []
    ensures list[0].id in clocks && clocks[list[0].id].expiry == epoch * TWO32 + list[0].value
  {
  }

  function Repeat(id: nat, k: nat): seq<nat> { seq(k, _ => id) }

  lemma RepeatOneMore(id: nat, k: nat)
    ensures Repeat(id, k + 1) == Repeat(id, k) + [id]
  {
  }

  lemma OneMore(p: int, k: nat, f: nat)
    ensures (k + 1) * p == k * p + p
    ensures (f + k) * p == f * p + k * p
    ensures (f + (k + 1)) * p == (f + k) * p + p
  {
  }

  lemma DecisionIs(e: u32, n: u32, c: u32, period: u32)
    ensures ProcessNow(e, n, c, period) <==> if e <= n then Sub32(n, c) >= period else n < c && e >= c
  {
  }

  lemma OnTimeAgain(t: Timer, c: Clock, command: nat, now: nat)
    requires command == c.start + c.fired * t.period && c.expiry == command + t.period && command <= now
    requires t.autoReload || c.fired == 0
    ensures OnTime(t, c, now)
  {
    OneMore(t.period, c.fired, 0);
  }

  // The timers that are due and in the current list.
  ghost function DueSet(list: seq<Entry>, clocks: ClockTable, t: nat): set<nat> {
    set id | id in Ids(list) && id in clocks && clocks[id].expiry <= t
  }

  lemma LessDue(list: seq<Entry>, list2: seq<Entry>, clocks: ClockTable, clocks2: ClockTable,
                                   id: nat, t: nat)
    requires Ids(list2) <= Ids(list) && id in Ids(list) && id in clocks && clocks[id].expiry <= t
    requires id in clocks2 && clocks2 == clocks[id := clocks2[id]]
    requires clocks2[id].expiry > t || id !in Ids(list2)
    ensures DueSet(list2, clocks2, t) < DueSet(list, clocks, t)
  {
    assert id in DueSet(list, clocks, t) && id !in DueSet(list2, clocks2, t);
    assert DueSet(list2, clocks2, t) <= DueSet(list, clocks, t);
  }

  lemma ListedHead(list: seq<Entry>)
    ensures list != [] ==> list[0].id in Ids(list)
  {
  }

  lemma HeadIsFirst(list: seq<Entry>, clocks: ClockTable, epoch: nat, id: nat)
    requires GoodList(list, clocks, epoch) && id in Ids(list)
    ensures list != [] && id in clocks && list[0].id in Ids(list) && list[0].id in clocks
    ensures epoch * TWO32 + list[0].value <= clocks[id].expiry
    ensures clocks[list[0].id].expiry == epoch * TWO32 + list[0].value
  {
    hide EntryValues;
    var i :| 0 <= i < |list| && list[i].id == id;
    if i > 0 {
      assert EntryValues(list)[0] <= EntryValues(list)[i];
    }
  }

  /** The state of a timer when the service task sleeps at t, compared with an earlier state: an
      auto-reload timer that is active has had one callback for each whole period since its
      start; a one-shot timer that was active has had one more callback, and is dormant, exactly
      when its expiry has passed; a dormant timer has had none. */
  ghost predicate UpToDate(timer: Timer, clock: Clock, timer2: Timer, clock2: Clock, called: nat, t: nat) {
    && called == clock.base + clock2.fired
    && (timer.active && timer.autoReload ==>
          && timer2 == timer && timer.period > 0 && clock.start <= t
          && clock2.fired == (t - clock.start) / timer.period)
    && (timer.active && !timer.autoReload ==>
          && (timer2.active <==> clock.expiry > t)
          && clock2.fired == clock.fired + (if clock.expiry > t then 0 else 1))
    && (!timer.active ==> timer2 == timer && clock2 == clock)
  }

  /** The state of the commanded timer right after its command was processed at t.  A start counts
      from the moment it was issued, however long it waited: callbacks that should have happened
      meanwhile are made up, so an auto-reload timer is on schedule at once. */
  ghost predicate Obeyed(command: Command, before: Timer, called: nat, timers: TimerTable, clocks: ClockTable,
                         issued: nat, t: nat) {
    var id := command.id;
    match command
    case Start(_, _) =>
      && id in timers && id in clocks && before.period > 0 && issued <= t
      && var passed := (t - issued) / before.period;
         var fired := if before.autoReload || passed == 0 then passed else 1;
         && timers[id] == before.(active := before.autoReload || passed == 0)
         && clocks[id].start == issued && clocks[id].base == called && clocks[id].fired == fired
         && (timers[id].active ==> clocks[id].expiry == issued + (fired + 1) * before.period && t < clocks[id].expiry)
    case Stop(_) => id in timers && id in clocks && OnlyStopped(before, called, timers[id], clocks[id])
    case ChangePeriod(_, newPeriod) =>
      && id in timers && id in clocks && timers[id] == before.(active := true, period := newPeriod)
      && clocks[id] == Clock(t, 0, t + newPeriod, called)
    case Delete(_) =>
      if before.isStatic then id in timers && id in clocks && OnlyStopped(before, called, timers[id], clocks[id])
      else id !in timers && id !in clocks
  }

  // A stopped timer is dormant and has not been called back.
  ghost predicate OnlyStopped(before: Timer, called: nat, timer: Timer, clock: Clock) {
    timer == before.(active := false) && clock.base + clock.fired == called
  }

  /** Two states that differ at one timer at most. */
  ghost predicate OnlyChanged(id: nat, timers: TimerTable, clocks: ClockTable, timers2: TimerTable,
                              clocks2: ClockTable) {
    timers2 - {id} == timers - {id} && clocks2 - {id} == clocks - {id} && timers2.Keys <= timers.Keys
  }

  lemma IssueDoesNotMatter(command: Command, before: Timer, called: nat, timers: TimerTable,
                                              clocks: ClockTable, t: nat, issued: nat)
    requires !command.Start? && Obeyed(command, before, called, timers, clocks, t, t)
    ensures Obeyed(command, before, called, timers, clocks, issued, t)
  {
  }

  // Sampling time leaves the timer of the command alone.
  lemma SampledKeeps(id: nat, timers: TimerTable, clocks: ClockTable, calls: seq<nat>,
                                        timers2: TimerTable, clocks2: ClockTable, calls2: seq<nat>, t: nat)
    requires AllAged(timers, clocks, timers2, clocks2, {id}, t) && id in timers && id in clocks
    requires CallsCounted(calls, clocks) && CallsCounted(calls2, clocks2)
    ensures id in timers2 && id in clocks2 && timers2[id] == timers[id] && multiset(calls2)[id] == multiset(calls)[id]
    ensures timers2.Keys == timers.Keys
  {
  }

  lemma OthersAged(id: nat, timers: TimerTable, clocks: ClockTable, timers2: TimerTable,
                                      clocks2: ClockTable, timers3: TimerTable, clocks3: ClockTable, t: nat)
    requires AllAged(timers, clocks, timers2, clocks2, {id}, t) && OnlyChanged(id, timers2, clocks2, timers3, clocks3)
    ensures forall other :: other in timers && other in clocks && other != id ==>
              && other in timers3 && other in clocks3
              && Aged(timers[other], clocks[other], timers3[other], clocks3[other], t)
    ensures timers3.Keys <= timers.Keys
  {
    hide Aged;
    forall other | other in timers && other in clocks && other != id
      ensures other in timers3 && other in clocks3 && timers3[other] == timers2[other]
              && clocks3[other] == clocks2[other]
    {
      assert other in timers2 - {id} && other in clocks2 - {id};
      assert (timers2 - {id})[other] == (timers3 - {id})[other] && (clocks2 - {id})[other] == (clocks3 - {id})[other];
    }
  }

  // The same of what a sample does to the timers that are not commanded.
  lemma OthersPassed(id: nat, timers: TimerTable, clocks: ClockTable, timers2: TimerTable, clocks2: ClockTable,
                     timers3: TimerTable, clocks3: ClockTable, wrapped: bool, end: nat)
    requires Passed(timers, clocks, timers2, clocks2, {id}, wrapped, end)
    requires OnlyChanged(id, timers2, clocks2, timers3, clocks3)
    ensures Passed(timers, clocks, timers3, clocks3, {id}, wrapped, end)
  {
    hide AgedTo;
    forall other | other in timers && other in clocks && other != id
      ensures other in timers3 && other in clocks3 && timers3[other] == timers2[other]
              && clocks3[other] == clocks2[other]
    {
      assert other in timers2 - {id} && other in clocks2 - {id};
      assert (timers2 - {id})[other] == (timers3 - {id})[other] && (clocks2 - {id})[other] == (clocks3 - {id})[other];
    }
  }

  lemma OnlyListedAgain(id: nat, calls: seq<nat>, calls2: seq<nat>, calls3: seq<nat>, timers2: TimerTable,
                        clocks2: ClockTable, timers3: TimerTable, clocks3: ClockTable)
    requires OnlyListedCalled(calls, calls2, clocks2) && multiset(calls2)[id] == multiset(calls)[id]
    requires OnlyListedCalled(calls2, calls3, clocks3) && OnlyChanged(id, timers2, clocks2, timers3, clocks3)
    ensures OnlyListedCalled(calls, calls3, clocks3)
  {
    forall other | other !in clocks3 && other != id
      ensures other !in clocks2
    {
      assert other !in clocks3 - {id};
    }
  }

  lemma ClockNotNeeded(list: seq<Entry>, clocks: ClockTable, epoch: nat, id: nat)
    requires GoodList(list, clocks, epoch) && id !in Ids(list)
    ensures GoodList(list, clocks - {id}, epoch)
  {
    hide EntryValues;
    forall i | 0 <= i < |list|
      ensures list[i].id != id
    {
      assert list[i].id in Ids(list);
    }
  }

  lemma Unlisted(list: seq<Entry>, id: nat)
    requires forall i :: 0 <= i < |list| ==> list[i].id != id
    ensures id !in Ids(list)
  {
  }

  // The whole periods since a start are the callbacks made by an auto-reload timer on schedule.
  lemma StartedIsObeyed(id: nat, value: u32, timer: Timer, base: nat, timers: TimerTable,
                                           timers2: TimerTable, clocks: ClockTable, clocks2: ClockTable,
                                           issued: nat, t: nat)
    requires id in timers && id in clocks && id in timers2 && id in clocks2 && timer.period > 0 && issued <= t
    requires timers2 == timers[id := timers2[id]] && clocks2 == clocks[id := clocks2[id]]
    requires var p, f := timer.period, clocks2[id].fired;
             && clocks2[id].start == issued && clocks2[id].base == base
             && issued + f * p <= t
             && (timer.autoReload || f == 0 ==>
                   && timers2[id] == timer.(active := true)
                   && clocks2[id].expiry == issued + f * p + p > t)
             && (!timer.autoReload && f > 0 ==> f == 1 && timers2[id] == timer.(active := false))
    ensures Obeyed(Start(id, value), timer, base, timers2, clocks2, issued, t)
    ensures OnlyChanged(id, timers, clocks, timers2, clocks2)
  {
    var p, f := timer.period, clocks2[id].fired;
    OneMore(p, f, 0);
    if timer.autoReload || f == 0 {
      DivModUnique(t - issued, p, f, t - issued - f * p);
    } else {
      assert t - issued == (t - issued) / p * p + (t - issued) % p;
    }
  }

  lemma RepeatNone(id: nat)
    ensures Repeat(id, 0) == []
  {
  }

  ghost predicate CountedBut(id: nat, calls: seq<nat>, clocks: ClockTable) {
    forall other :: other in clocks && other != id ==>
      multiset(calls)[other] == clocks[other].base + clocks[other].fired
  }

  lemma CountedIsBut(id: nat, calls: seq<nat>, clocks: ClockTable, c: Clock)
    requires CallsCounted(calls, clocks)
    ensures CountedBut(id, calls, clocks[id := c])
    ensures CountedBut(id, calls, clocks)
  {
  }

  // A timer's clock is set back, with k callbacks since.
  lemma CountedAgain(id: nat, before: seq<nat>, k: nat, after: seq<nat>, clocks: ClockTable,
                                        clocks2: ClockTable)
    requires id in clocks && id in clocks2 && clocks2 == clocks[id := clocks2[id]]
    requires CountedBut(id, before, clocks) && after == before + Repeat(id, k)
    requires clocks2[id].base == multiset(before)[id] && clocks2[id].fired == k
    ensures CallsCounted(after, clocks2)
  {
    RepeatCount(id, k);
  }
}
