// Whole runs of the timer service task: rounds that look at the lists and commands from the queue,
// in any order and at any times less than 2^32 ticks apart.
module TimerRuns {
  import opened Words
  import opened Timers

  /** One pass through prvProcessTimerOrBlockTask, or one command, at a tick of its own. */
  datatype Action = Look(tick: u32) | Obey(command: Command, tick: u32)

  /** The timers, their clocks and all callbacks made so far. */
  datatype Snapshot = Snapshot(timers: TimerTable, clocks: ClockTable, calls: seq<nat>)

  predicate Commands(a: Action, id: nat) { a.Obey? && a.command.id == id }

  // ---- what one action does ----

  ghost predicate NothingDue(s: Snapshot, t: nat) {
    forall id :: id in s.timers && id in s.clocks && s.timers[id].active ==> t < s.clocks[id].expiry
  }

  /** The timers due at t. */
  ghost function Due(s: Snapshot, t: nat): set<nat> {
    set id | id in s.timers && id in s.clocks && s.timers[id].active && s.clocks[id].expiry <= t
  }

  /** The tick has wrapped between the samples at last and at t. */
  predicate Wraps(last: nat, t: nat) { last / TWO32 < t / TWO32 }

  /** What an action at t does, when time was sampled before at last.  A look switches the lists if
      the tick has wrapped, and then the callbacks due at the last tick before are made; otherwise
      the first timer due fires, and only if none is due the task goes to sleep.  A command does to
      its timer what it says, and to the others what sampling the time does. */
  ghost predicate Acts(a: Action, last: nat, t: nat, issued: nat, s: Snapshot, s2: Snapshot, slept: bool) {
    && OnlyListedCalled(s.calls, s2.calls, s2.clocks) && s2.timers.Keys <= s.timers.Keys
    && match a
       case Look(_) => Looks(last, t, s, s2, slept)
       case Obey(command, _) =>
         && !slept && command.id in s.timers
         && Obeyed(command, s.timers[command.id], multiset(s.calls)[command.id], s2.timers, s2.clocks, issued, t)
         && Passed(s.timers, s.clocks, s2.timers, s2.clocks, {command.id}, Wraps(last, t), LastOfEpoch(last))
  }

  ghost predicate Looks(last: nat, t: nat, s: Snapshot, s2: Snapshot, slept: bool) {
    if Wraps(last, t) then
      !slept && Passed(s.timers, s.clocks, s2.timers, s2.clocks, {}, true, LastOfEpoch(last))
    else if NothingDue(s, t) then slept && s2 == s
    else !slept && FirstFires(s.timers, s.clocks, s.calls, s2.timers, s2.clocks, s2.calls, t)
  }

  /** Every timer is on schedule, and every callback made is accounted for. */
  ghost predicate Sane(s: Snapshot, t: nat) {
    && s.clocks.Keys == s.timers.Keys && CallsCounted(s.calls, s.clocks)
    && forall id :: id in s.timers ==> s.timers[id].period > 0 && OnTime(s.timers[id], s.clocks[id], t)
  }

  // ---- runs ----

  /** times are the true times of the actions, issued those at which commands were issued. */
  ghost predicate Timed(actions: seq<Action>, times: seq<nat>, issued: seq<nat>) {
    && |times| == |actions| == |issued|
    && (forall i :: 0 <= i < |actions| ==> actions[i].tick == Wrap32(times[i]))
    && (forall i :: 0 < i < |times| ==> times[i - 1] <= times[i] < times[i - 1] + TWO32)
    && (forall i :: 0 <= i < |actions| && actions[i].Obey? && actions[i].command.Start? ==>
          issued[i] <= times[i] < issued[i] + TWO32 && actions[i].command.value == Wrap32(issued[i]))
    && (forall i :: 0 <= i < |actions| && actions[i].Obey? && actions[i].command.ChangePeriod? ==>
          actions[i].command.newPeriod > 0)
  }

  /** No handle is used after its timer has been freed. */
  ghost predicate Usable(actions: seq<Action>, timers: TimerTable) {
    forall j :: 0 <= j < |actions| && actions[j].Obey? ==>
      && actions[j].command.id in timers
      && (timers[actions[j].command.id].isStatic || !Deleted(actions[..j], actions[j].command.id))
  }

  ghost predicate Deleted(actions: seq<Action>, id: nat) {
    exists i :: 0 <= i < |actions| && actions[i].Obey? && actions[i].command == Delete(id)
  }

  /** A run: the actions with their times lead through the states, from one sampled at began; slept
      says which of them sent the task to sleep. */
  datatype Trace = Trace(actions: seq<Action>, times: seq<nat>, issued: seq<nat>, began: nat,
                         states: seq<Snapshot>, slept: seq<bool>)

  /** When time was sampled last before action j. */
  function SampledAt(r: Trace, j: nat): nat
    requires j <= |r.times|
  {
    if j == 0 then r.began else r.times[j - 1]
  }

  ghost predicate TaskTrace(r: Trace) {
    && |r.times| == |r.issued| == |r.slept| == |r.actions| && |r.states| == |r.actions| + 1
    && Sane(r.states[0], r.began)
    && forall j :: 0 <= j < |r.actions| ==> StepOf(r, j)
  }

  ghost predicate StepOf(r: Trace, j: nat)
    requires |r.times| == |r.issued| == |r.slept| == |r.actions| && |r.states| == |r.actions| + 1
    requires j < |r.actions|
  {
    && SampledAt(r, j) <= r.times[j]
    && Acts(r.actions[j], SampledAt(r, j), r.times[j], r.issued[j], r.states[j], r.states[j + 1], r.slept[j])
    && Sane(r.states[j + 1], r.times[j])
  }

  ghost predicate Uncommanded(actions: seq<Action>, id: nat, from: nat, to: nat) {
    forall i :: from <= i < to && i < |actions| ==> !Commands(actions[i], id)
  }

  lemma AgedLonger(t: Timer, c: Clock, t2: Timer, c2: Clock, t3: Timer, c3: Clock, now: nat, now3: nat)
    requires Aged(t, c, t2, c2, now) && Aged(t2, c2, t3, c3, now3) && now <= now3
    ensures Aged(t, c, t3, c3, now3)
  {
  }

  lemma PassedAges(t: Timer, c: Clock, t2: Timer, c2: Clock, last: nat, now: nat)
    requires AgedTo(t, c, t2, c2, LastOfEpoch(last)) && Wraps(last, now)
    ensures Aged(t, c, t2, c2, now)
  {
  }

  // What one action does to a timer it does not command.
  lemma ActAges(a: Action, last: nat, t: nat, issued: nat, s: Snapshot, s2: Snapshot, slept: bool, id: nat)
    requires Acts(a, last, t, issued, s, s2, slept) && !Commands(a, id) && id in s.timers && id in s.clocks
    ensures id in s2.timers && id in s2.clocks && Aged(s.timers[id], s.clocks[id], s2.timers[id], s2.clocks[id], t)
  {
    hide Obeyed, OnlyListedCalled, AgedTo, Aged, FirstFires, NothingDue, LastOfEpoch;
    if a.Look? && !Wraps(last, t) && !NothingDue(s, t) {
      FirstAges(s, s2, t);
    } else if Wraps(last, t) {
      PassedAges(s.timers[id], s.clocks[id], s2.timers[id], s2.clocks[id], last, t);
    } else {
      NotAged(s.timers, s.clocks, {}, t);
      assert s2.timers[id] == s.timers[id] && s2.clocks[id] == s.clocks[id];
    }
  }

  lemma FirstAges(s: Snapshot, s2: Snapshot, t: nat)
    requires FirstFires(s.timers, s.clocks, s.calls, s2.timers, s2.clocks, s2.calls, t)
    ensures AllAged(s.timers, s.clocks, s2.timers, s2.clocks, {}, t)
    ensures Due(s2, t) < Due(s, t)
  {
    hide Fired, Earliest, AllAged;
    var id :| && id in s.timers && id in s.clocks && id in s2.timers && id in s2.clocks
              && s.timers[id].active && s.clocks[id].expiry <= t
              && Fired(id, s.timers[id], s.clocks[id], s.calls, s2.timers[id], s2.clocks[id], s2.calls, t)
              && s2.timers == s.timers[id := s2.timers[id]] && s2.clocks == s.clocks[id := s2.clocks[id]];
    OneAged(id, s.timers, s.clocks, s2.timers, s2.clocks, s.calls, s2.calls, {}, t);
    FiredMovesOn(id, s.timers[id], s.clocks[id], s.calls, s2.timers[id], s2.clocks[id], s2.calls, t);
    assert id in Due(s, t) && id !in Due(s2, t);
  }

  // A timer that nobody commands only ages.
  lemma {:induction false} AgesThroughRun(r: Trace, id: nat, k: nat, j: nat)
    requires TaskTrace(r) && k < j <= |r.actions| && Uncommanded(r.actions, id, k, j)
    requires id in r.states[k].timers && id in r.states[k].clocks
    ensures id in r.states[j].timers && id in r.states[j].clocks
    ensures Aged(r.states[k].timers[id], r.states[k].clocks[id], r.states[j].timers[id], r.states[j].clocks[id],
                 r.times[j - 1])
    decreases j
  {
    hide Aged, Acts, Sane;
    var s, s2 := r.states[j - 1], r.states[j];
    assert StepOf(r, j - 1);
    assert !Commands(r.actions[j - 1], id);
    if k + 1 < j {
      AgesThroughRun(r, id, k, j - 1);
      ActAges(r.actions[j - 1], r.times[j - 2], r.times[j - 1], r.issued[j - 1], s, s2, r.slept[j - 1], id);
      AgedLonger(r.states[k].timers[id], r.states[k].clocks[id], s.timers[id], s.clocks[id],
                 s2.timers[id], s2.clocks[id], r.times[j - 2], r.times[j - 1]);
    } else {
      ActAges(r.actions[k], SampledAt(r, k), r.times[k], r.issued[k], s, s2, r.slept[k], id);
    }
  }

  /** Whenever the task goes to sleep, every timer not commanded since state k is up to date: one
      callback for each whole period of an auto-reload timer, the one callback of a one-shot timer
      exactly if its expiry has passed, none of a dormant one. */
  lemma UpToDateAtEverySleep(r: Trace, id: nat, k: nat, j: nat)
    requires TaskTrace(r) && k <= j < |r.actions| && r.slept[j] && Uncommanded(r.actions, id, k, j + 1)
    requires id in r.states[k].timers && id in r.states[k].clocks
    ensures id in r.states[j + 1].timers && id in r.states[j + 1].clocks
    ensures UpToDate(r.states[k].timers[id], r.states[k].clocks[id], r.states[j + 1].timers[id],
                     r.states[j + 1].clocks[id], multiset(r.states[j + 1].calls)[id], r.times[j])
  {
    hide Obeyed, FirstFires, Passed, OnlyListedCalled;
    AgesThroughRun(r, id, k, j + 1);
    assert StepOf(r, j);
    var s := r.states[j + 1];
    assert Sane(s, r.times[j]) && NothingDue(s, r.times[j]);
    if s.timers[id].active {
      OneCallbackPerPeriod(s.timers[id], s.clocks[id], r.times[j]);
    }
  }

  // ---- the task does go to sleep ----

  lemma FewerDue(a: set<nat>, b: set<nat>)
    requires a <= b
    ensures |a| <= |b| && (a < b ==> |a| < |b|)
  {
    assert b == a + (b - a);
    if a < b {
      var x :| x in b && x !in a;
      assert x in b - a;
    }
  }

  // A wrap of the tick makes no timer due.
  lemma WrapDue(s: Snapshot, s2: Snapshot, last: nat, t: nat)
    requires Wraps(last, t) && Looks(last, t, s, s2, false) && Sane(s, last) && Sane(s2, t)
    requires s2.timers.Keys <= s.timers.Keys
    ensures Due(s2, t) <= Due(s, t)
  {
    hide CallsCounted, LastOfEpoch;
    forall id | id in Due(s2, t)
      ensures id in Due(s, t)
    {
      assert AgedTo(s.timers[id], s.clocks[id], s2.timers[id], s2.clocks[id], LastOfEpoch(last));
      ExpiryGrows(s.timers[id], s.clocks[id], s2.timers[id], s2.clocks[id], LastOfEpoch(last), last, t);
    }
  }

  lemma ExpiryGrows(timer: Timer, clock: Clock, timer2: Timer, clock2: Clock, end: nat, last: nat, t: nat)
    requires Aged(timer, clock, timer2, clock2, end) && OnTime(timer, clock, last) && OnTime(timer2, clock2, t)
    requires timer2.active
    ensures timer.active && clock.expiry <= clock2.expiry
  {
    Longer(clock.fired + 1, clock2.fired + 1, timer.period);
  }

  lemma Longer(a: nat, b: nat, p: nat)
    requires a <= b
    ensures a * p <= b * p
  {
  }

  ghost predicate LooksAt(r: Trace, i: nat, j: nat, t: nat) {
    forall k :: i <= k < j && k < |r.actions| && k < |r.times| ==> r.actions[k].Look? && r.times[k] == t
  }

  /** Looks at one tick end in sleep: as many as timers are due, one more, and one more again if the
      tick has wrapped before, and the last of them finds nothing to do. */
  lemma {:induction false} EnoughLooksSleep(r: Trace, i: nat, j: nat, t: nat)
    requires TaskTrace(r) && i < j <= |r.actions| && LooksAt(r, i, j, t)
    requires j - i > |Due(r.states[i], t)| + (if Wraps(SampledAt(r, i), t) then 1 else 0)
    ensures r.slept[j - 1]
    decreases j - i
  {
    hide FirstFires, Passed, Sane, OnlyListedCalled, Wraps;
    assert StepOf(r, i) && r.actions[i].Look? && r.times[i] == t;
    var s, s2 := r.states[i], r.states[i + 1];
    if Wraps(SampledAt(r, i), t) {
      assert Sane(s, SampledAt(r, i)) by { SaneAt(r, i); }
      WrapDue(s, s2, SampledAt(r, i), t);
      FewerDue(Due(s2, t), Due(s, t));
    } else if NothingDue(s, t) {
      assert Due(s, t) == {};
    } else {
      FirstAges(s, s2, t);
      FewerDue(Due(s2, t), Due(s, t));
    }
    if i + 1 < j {
      NoWrap(t);
      EnoughLooksSleep(r, i + 1, j, t);
    }
  }

  lemma NoWrap(t: nat)
    ensures !Wraps(t, t)
  {
  }

  lemma SaneAt(r: Trace, i: nat)
    requires TaskTrace(r) && i <= |r.actions|
    ensures Sane(r.states[i], SampledAt(r, i))
  {
    hide Sane, Acts;
    if i > 0 {
      assert StepOf(r, i - 1);
    }
  }

  /** So in every run in which the task gets to look often enough at one tick, every timer not
      commanded since state k is up to date then. */
  lemma UpToDateAfterEnoughLooks(r: Trace, id: nat, k: nat, i: nat, j: nat, t: nat)
    requires TaskTrace(r) && k <= i < j <= |r.actions| && LooksAt(r, i, j, t) && Uncommanded(r.actions, id, k, i)
    requires j - i > |Due(r.states[i], t)| + (if Wraps(SampledAt(r, i), t) then 1 else 0)
    requires id in r.states[k].timers && id in r.states[k].clocks
    ensures r.slept[j - 1] && id in r.states[j].timers && id in r.states[j].clocks
    ensures UpToDate(r.states[k].timers[id], r.states[k].clocks[id], r.states[j].timers[id], r.states[j].clocks[id],
                     multiset(r.states[j].calls)[id], t)
  {
    hide StepOf, UpToDate;
    EnoughLooksSleep(r, i, j, t);
    assert r.times[j - 1] == t;
    assert forall l :: i <= l < j ==> r.actions[l].Look?;
    UpToDateAtEverySleep(r, id, k, j - 1);
  }

  // ---- callbacks after a command ----

  /** How many callbacks a timer started at start should have had at t. */
  function Expected(autoReload: bool, start: nat, period: nat, t: nat): nat
    requires period > 0 && start <= t
  {
    if autoReload then (t - start) / period else if start + period <= t then 1 else 0
  }

  lemma AtLeastOnePeriod(d: nat, p: nat)
    requires p > 0
    ensures d / p == 0 <==> d < p
  {
    if d < p {
      DivModUnique(d, p, 0, d);
    } else {
      assert d == d / p * p + d % p;
    }
  }

  /** A timer started by a command, and not commanded again: at every later sleep it has had exactly
      the callbacks due since the command was issued, however long the command waited and however
      often the tick has wrapped. */
  lemma CallbacksAfterStart(r: Trace, i: nat, j: nat)
    requires TaskTrace(r) && i < j < |r.actions| && r.slept[j] && r.actions[i].Obey? && r.actions[i].command.Start?
    requires Uncommanded(r.actions, r.actions[i].command.id, i + 1, j + 1)
    ensures var id := r.actions[i].command.id;
            && id in r.states[i].timers && r.states[i].timers[id].period > 0 && r.issued[i] <= r.times[j]
            && multiset(r.states[j + 1].calls)[id] == multiset(r.states[i].calls)[id] +
                 Expected(r.states[i].timers[id].autoReload, r.issued[i], r.states[i].timers[id].period, r.times[j])
  {
    hide Aged, Passed, OnlyListedCalled, Sane, NothingDue;
    var id := r.actions[i].command.id;
    assert StepOf(r, i);
    UpToDateAtEverySleep(r, id, i + 1, j);
    TimesGrow(r, i, j);
    AtLeastOnePeriod(r.times[i] - r.issued[i], r.states[i].timers[id].period);
  }

  /** The same for a changed period, which starts the timer when the command is processed. */
  lemma CallbacksAfterChangePeriod(r: Trace, i: nat, j: nat)
    requires TaskTrace(r) && i < j < |r.actions| && r.slept[j]
    requires r.actions[i].Obey? && r.actions[i].command.ChangePeriod?
    requires Uncommanded(r.actions, r.actions[i].command.id, i + 1, j + 1)
    ensures var id := r.actions[i].command.id;
            && id in r.states[i].timers && r.actions[i].command.newPeriod > 0 && r.times[i] <= r.times[j]
            && multiset(r.states[j + 1].calls)[id] == multiset(r.states[i].calls)[id] +
                 Expected(r.states[i].timers[id].autoReload, r.times[i], r.actions[i].command.newPeriod, r.times[j])
  {
    hide Aged, Passed, OnlyListedCalled, OnTime, CallsCounted, NothingDue;
    var id := r.actions[i].command.id;
    assert StepOf(r, i);
    UpToDateAtEverySleep(r, id, i + 1, j);
    TimesGrow(r, i, j);
  }

  // A dormant timer has no callbacks until it is commanded.
  lemma DormantStays(r: Trace, id: nat, k: nat, j: nat)
    requires TaskTrace(r) && k <= j <= |r.actions| && Uncommanded(r.actions, id, k, j)
    requires id in r.states[k].timers && !r.states[k].timers[id].active
    ensures id in r.states[j].timers && r.states[j].timers[id] == r.states[k].timers[id]
    ensures multiset(r.states[j].calls)[id] == multiset(r.states[k].calls)[id]
  {
    hide StepOf;
    SaneAt(r, k);
    SaneAt(r, j);
    if k < j {
      AgesThroughRun(r, id, k, j);
    }
  }

  /** A stopped timer has no callbacks, from the stop command itself on and until it is commanded
      again; whether the task sleeps does not matter. */
  lemma NoCallbacksAfterStop(r: Trace, i: nat, j: nat)
    requires TaskTrace(r) && i < j <= |r.actions| && r.actions[i].Obey? && r.actions[i].command.Stop?
    requires Uncommanded(r.actions, r.actions[i].command.id, i + 1, j)
    ensures var id := r.actions[i].command.id;
            && id in r.states[j].timers && !r.states[j].timers[id].active
            && multiset(r.states[j].calls)[id] == multiset(r.states[i].calls)[id]
  {
    hide Passed, OnlyListedCalled, Sane;
    var id := r.actions[i].command.id;
    assert StepOf(r, i);
    CountedAfter(r, i, id);
    DormantStays(r, id, i + 1, j);
  }

  lemma CountedAfter(r: Trace, i: nat, id: nat)
    requires TaskTrace(r) && i < |r.actions|
    ensures r.states[i + 1].timers.Keys == r.states[i + 1].clocks.Keys
    ensures id in r.states[i + 1].clocks ==>
              var c := r.states[i + 1].clocks[id]; multiset(r.states[i + 1].calls)[id] == c.base + c.fired
  {
    hide Acts, OnTime;
    assert StepOf(r, i);
  }

  /** Nor has a deleted one; one that has been freed never again. */
  lemma NoCallbacksAfterDelete(r: Trace, i: nat, j: nat)
    requires TaskTrace(r) && i < j <= |r.actions| && r.actions[i].Obey? && r.actions[i].command.Delete?
    requires r.actions[i].command.id in r.states[i].timers
    requires r.states[i].timers[r.actions[i].command.id].isStatic ==>
               Uncommanded(r.actions, r.actions[i].command.id, i + 1, j)
    ensures var id := r.actions[i].command.id;
            && multiset(r.states[j].calls)[id] == multiset(r.states[i].calls)[id]
            && (if r.states[i].timers[id].isStatic
                then id in r.states[j].timers && !r.states[j].timers[id].active else id !in r.states[j].timers)
  {
    hide Passed, OnlyListedCalled, Sane;
    var id := r.actions[i].command.id;
    assert StepOf(r, i);
    CountedAfter(r, i, id);
    if r.states[i].timers[id].isStatic {
      DormantStays(r, id, i + 1, j);
    } else {
      NotThere(r.states[i].calls, r.states[i + 1].calls, r.states[i + 1].clocks, id);
      GoneForGood(r, id, i + 1, j);
    }
  }

  lemma NotThere(calls: seq<nat>, calls2: seq<nat>, clocks2: ClockTable, id: nat)
    requires OnlyListedCalled(calls, calls2, clocks2) && id !in clocks2
    ensures multiset(calls2)[id] == multiset(calls)[id]
  {
  }

  lemma {:induction false} GoneForGood(r: Trace, id: nat, k: nat, j: nat)
    requires TaskTrace(r) && k <= j <= |r.actions| && id !in r.states[k].timers
    ensures id !in r.states[j].timers && multiset(r.states[j].calls)[id] == multiset(r.states[k].calls)[id]
    decreases j
  {
    hide Looks, Obeyed, Passed, OnlyListedCalled, Sane;
    if k < j {
      GoneForGood(r, id, k, j - 1);
      assert StepOf(r, j - 1);
      CountedAfter(r, j - 1, id);
      NotThere(r.states[j - 1].calls, r.states[j].calls, r.states[j].clocks, id);
    }
  }

  lemma {:induction false} TimesGrow(r: Trace, i: nat, j: nat)
    requires TaskTrace(r) && i <= j < |r.actions|
    ensures r.times[i] <= r.times[j]
    decreases j
  {
    hide Acts, Sane;
    if i < j {
      TimesGrow(r, i, j - 1);
      assert StepOf(r, j);
    }
  }

  // ---- the task ----

  ghost function SnapshotOf(service: TimerService): Snapshot
    reads service
  {
    Snapshot(service.timers, service.clocks, service.calls)
  }

  lemma SaneNow(service: TimerService)
    requires service.Valid()
    ensures Sane(SnapshotOf(service), service.now)
    ensures service.lastTime == Wrap32(service.now)
  {
    WrapOf(service.epoch, service.lastTime);
  }

  // The tick has gone down exactly if the epoch has advanced.
  lemma WrapsIff(last: nat, t: nat)
    requires last <= t < last + TWO32
    ensures Wraps(last, t) <==> Wrap32(t) < Wrap32(last)
  {
    EpochAfter(last / TWO32, last % TWO32, t, t % TWO32);
  }

  // One action of the task.
  method Act(service: TimerService, a: Action, ghost t: nat, ghost issued: nat) returns (sleeps: bool)
    requires service.Valid() && service.now <= t < service.now + TWO32 && a.tick == Wrap32(t)
    requires a.Obey? ==> a.command.id in service.timers
    requires a.Obey? && a.command.Start? ==> issued <= t < issued + TWO32 && a.command.value == Wrap32(issued)
    requires a.Obey? && a.command.ChangePeriod? ==> a.command.newPeriod > 0
    modifies service
    ensures service.Valid() && service.now == t && Sane(SnapshotOf(service), t)
    ensures Acts(a, old(service.now), t, issued, old(SnapshotOf(service)), SnapshotOf(service), sleeps)
  {
    hide Sane, Acts, Aged, AllAged, Obeyed, Passed, OnlyListedCalled, FirstFires, Wrap32, Wraps, LastOfEpoch;
    ghost var s, last := SnapshotOf(service), service.now;
    SaneNow(service);
    WrapsIff(last, t);
    sleeps := false;
    match a {
      case Look(tick) =>
        var next, empty := service.GetNextExpireTime();
        var outcome := service.ProcessTimerOrBlock(next, empty, tick, t);
        sleeps := outcome.Blocked?;
        SaneNow(service);
        LookActs(a, last, t, issued, s, service, outcome);
      case Obey(command, tick) =>
        service.ProcessCommand(command, tick, issued, t);
        CommandActs(a, last, t, issued, s, SnapshotOf(service));
    }
    SaneNow(service);
  }

  /** The service task on any sequence of looks and commands: the theorems about runs apply to what
      it does, and slept says which looks sent it to sleep. */
  method TaskRun(service: TimerService, actions: seq<Action>, ghost times: seq<nat>, ghost issued: seq<nat>)
    returns (slept: seq<bool>, ghost states: seq<Snapshot>)
    requires service.Valid() && Timed(actions, times, issued) && Usable(actions, service.timers)
    requires |times| > 0 ==> service.now <= times[0] < service.now + TWO32
    modifies service
    ensures service.Valid() && TaskTrace(Trace(actions, times, issued, old(service.now), states, slept))
    ensures states[0] == old(SnapshotOf(service)) && states[|actions|] == SnapshotOf(service)
    ensures |times| > 0 ==> service.now == times[|times| - 1]
  {
    hide *;
    ghost var began := service.now;
    slept, states := [], [SnapshotOf(service)];
    SnapshotIs(service);
    SaneNow(service);
    NothingDone(SnapshotOf(service), began);
    var k := 0;
    TimedAt(actions, times, issued, service.now, 0);
    while k < |actions|
      invariant 0 <= k <= |actions| && service.Valid()
      invariant |times| == |issued| == |actions| && service.now == if k == 0 then began else times[k - 1]
      invariant |slept| == k && |states| == k + 1 && states[0] == old(SnapshotOf(service))
      invariant states[k] == SnapshotOf(service)
      invariant TaskTrace(Trace(actions[..k], times[..k], issued[..k], began, states, slept))
      invariant StillUsable(actions[..k], old(service.timers), service.timers)
    {
      ghost var s, last := SnapshotOf(service), service.now;
      SnapshotIs(service);
      TimedAt(actions, times, issued, began, k);
      if actions[k].Obey? {
        StillThere(actions, k, old(service.timers), service.timers);
      }
      var sleeps := Act(service, actions[k], times[k], issued[k]);
      SnapshotIs(service);
      StaysUsable(actions, k, old(service.timers), last, times[k], issued[k], s, SnapshotOf(service), sleeps);
      SampledThen(Trace(actions, times, issued, began, states, slept), k);
      OneMoreAction(Trace(actions, times, issued, began, states, slept), k, SnapshotOf(service), sleeps);
      slept, states := slept + [sleeps], states + [SnapshotOf(service)];
      k := k + 1;
    }
    assert actions[..k] == actions && times[..k] == times && issued[..k] == issued;
  }

  lemma TimedAt(actions: seq<Action>, times: seq<nat>, issued: seq<nat>, began: nat, k: nat)
    requires Timed(actions, times, issued) && (|times| > 0 ==> began <= times[0] < began + TWO32)
    ensures |times| == |issued| == |actions|
    ensures k < |actions| ==>
              && actions[k].tick == Wrap32(times[k])
              && (var last := if k == 0 then began else times[k - 1]; last <= times[k] < last + TWO32)
              && (actions[k].Obey? && actions[k].command.Start? ==>
                    issued[k] <= times[k] < issued[k] + TWO32 && actions[k].command.value == Wrap32(issued[k]))
              && (actions[k].Obey? && actions[k].command.ChangePeriod? ==> actions[k].command.newPeriod > 0)
  {
    hide Wrap32;
  }

  lemma SampledThen(r: Trace, k: nat)
    requires k <= |r.times|
    ensures SampledAt(r, k) == if k == 0 then r.began else r.times[k - 1]
  {
  }

  lemma SnapshotIs(service: TimerService)
    requires service.Valid()
    ensures SnapshotOf(service) == Snapshot(service.timers, service.clocks, service.calls)
    ensures service.timers.Keys == service.clocks.Keys
  {
  }

  lemma NothingDone(s: Snapshot, began: nat)
    requires Sane(s, began)
    ensures TaskTrace(Trace([], [], [], began, [s], [])) && StillUsable([], s.timers, s.timers)
  {
    hide Sane;
  }

  // Timers not freed so far are still there.
  ghost predicate StillUsable(done: seq<Action>, timers: TimerTable, now: TimerTable) {
    forall id :: id in timers && (timers[id].isStatic || !Deleted(done, id)) ==>
      id in now && now[id].isStatic == timers[id].isStatic
  }

  lemma StillThere(actions: seq<Action>, k: nat, timers: TimerTable, now: TimerTable)
    requires Usable(actions, timers) && k < |actions| && actions[k].Obey? && StillUsable(actions[..k], timers, now)
    ensures actions[k].command.id in now
  {
  }

  lemma StaysUsable(actions: seq<Action>, k: nat, timers: TimerTable, last: nat, t: nat, issued: nat, s: Snapshot,
                    s2: Snapshot, slept: bool)
    requires k < |actions| && StillUsable(actions[..k], timers, s.timers)
    requires Acts(actions[k], last, t, issued, s, s2, slept) && s.timers.Keys == s.clocks.Keys
    ensures StillUsable(actions[..k + 1], timers, s2.timers)
  {
    hide Looks, Passed, OnlyListedCalled;
    forall id | id in timers && (timers[id].isStatic || !Deleted(actions[..k + 1], id))
      ensures id in s2.timers && s2.timers[id].isStatic == timers[id].isStatic
    {
      NotDeletedBefore(actions, k, id);
      assert id in s.timers;
      if !Commands(actions[k], id) {
        ActAges(actions[k], last, t, issued, s, s2, slept, id);
      } else if actions[k].command.Delete? {
        assert actions[..k + 1][k] == actions[k];
      }
    }
  }

  lemma NotDeletedBefore(actions: seq<Action>, k: nat, id: nat)
    requires k < |actions|
    ensures Deleted(actions[..k], id) ==> Deleted(actions[..k + 1], id)
  {
    if i :| 0 <= i < k && actions[..k][i].Obey? && actions[..k][i].command == Delete(id) {
      assert actions[..k + 1][i] == actions[..k][i];
    }
  }

  lemma LookActs(a: Action, last: nat, t: nat, issued: nat, s: Snapshot, service: TimerService, outcome: Outcome)
    requires a.Look? && AllAged(s.timers, s.clocks, service.timers, service.clocks, {}, t)
    requires outcome.Switched? <==> Wraps(last, t)
    requires outcome.Switched? ==>
               Passed(s.timers, s.clocks, service.timers, service.clocks, {}, true, LastOfEpoch(last))
    requires outcome.Processed? ==>
               FirstFires(s.timers, s.clocks, s.calls, service.timers, service.clocks, service.calls, t)
    requires outcome.Blocked? ==> SnapshotOf(service) == s && service.NoneBefore(t + 1)
    requires OnlyListedCalled(s.calls, service.calls, service.clocks)
    ensures Acts(a, last, t, issued, s, SnapshotOf(service), outcome.Blocked?)
  {
    hide Passed, OnlyListedCalled, Fired, Earliest, Aged;
  }

  lemma CommandActs(a: Action, last: nat, t: nat, issued: nat, s: Snapshot, s2: Snapshot)
    requires a.Obey? && a.command.id in s.timers && s2.timers.Keys <= s.timers.Keys
    requires Obeyed(a.command, s.timers[a.command.id], multiset(s.calls)[a.command.id], s2.timers, s2.clocks, issued, t)
    requires Passed(s.timers, s.clocks, s2.timers, s2.clocks, {a.command.id}, Wraps(last, t), LastOfEpoch(last))
    requires OnlyListedCalled(s.calls, s2.calls, s2.clocks)
    ensures Acts(a, last, t, issued, s, s2, false)
  {
    hide Passed, Obeyed, OnlyListedCalled;
  }

  lemma OneMoreAction(r: Trace, k: nat, s: Snapshot, sleeps: bool)
    requires |r.times| == |r.issued| == |r.actions| && k < |r.actions| && |r.slept| == k && |r.states| == k + 1
    requires TaskTrace(r.(actions := r.actions[..k], times := r.times[..k], issued := r.issued[..k]))
    requires SampledAt(r, k) <= r.times[k] && Sane(s, r.times[k])
    requires Acts(r.actions[k], SampledAt(r, k), r.times[k], r.issued[k], r.states[k], s, sleeps)
    ensures TaskTrace(Trace(r.actions[..k + 1], r.times[..k + 1], r.issued[..k + 1], r.began, r.states + [s],
                            r.slept + [sleeps]))
  {
    hide Acts, Sane;
    var before := r.(actions := r.actions[..k], times := r.times[..k], issued := r.issued[..k]);
    var after := Trace(r.actions[..k + 1], r.times[..k + 1], r.issued[..k + 1], r.began, r.states + [s],
                       r.slept + [sleeps]);
    forall j | 0 <= j < k
      ensures StepOf(after, j)
    {
      assert StepOf(before, j);
    }
    assert StepOf(after, k);
  }
}
