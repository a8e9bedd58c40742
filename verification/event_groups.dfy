// Event groups of the kernel.  A word of event bits is modelled as the set of its bit numbers:
// | is union, & intersection, & ~ difference.
module EventGroups {
  type word = set<nat>

  const CLEAR_ON_EXIT: nat := 24
  const UNBLOCKED_BY_SET: nat := 25
  const WAIT_FOR_ALL: nat := 26
  /** The byte of a list item's value that the kernel keeps for itself. */
  const CONTROL: word := {24, 25, 26, 27, 28, 29, 30, 31}

  /** A blocked task and the value of its list item: the bits it waits for and control bits. */
  datatype Waiter = Waiter(task: nat, value: word)

  /** What a woken task finds in its list item, and what it had asked for. */
  datatype Wake = Wake(value: word, asked: word)

  function Asked(waitFor: word, clearOnExit: bool, all: bool): word {
    waitFor + (if clearOnExit then {CLEAR_ON_EXIT} else {}) + (if all then {WAIT_FOR_ALL} else {})
  }

  /** The wait condition held in a list item's value. */
  predicate Met(bits: word, value: word) {
    if WAIT_FOR_ALL in value then value - CONTROL <= bits else (value - CONTROL) * bits != {}
  }

  // ---- setting bits ----

  /** The waiters whose condition the bits do not meet, in order. */
  function Left(ws: seq<Waiter>, bits: word): (left: seq<Waiter>)
    ensures |left| <= |ws|
  {
    if ws == [] then []
    else
      var w := ws[|ws| - 1];
      Left(ws[..|ws| - 1], bits) + (if Met(bits, w.value) then [] else [w])
  }

  /** The bits that woken clear-on-exit waiters asked for. */
  function ClearedBy(ws: seq<Waiter>, bits: word): word {
    if ws == [] then {}
    else
      var w := ws[|ws| - 1];
      ClearedBy(ws[..|ws| - 1], bits)
      + (if Met(bits, w.value) && CLEAR_ON_EXIT in w.value then w.value - CONTROL else {})
  }

  /** The woken waiters, each with the bits as they were before any clearing. */
  function WakeAll(woken: map<nat, Wake>, ws: seq<Waiter>, bits: word): map<nat, Wake> {
    if ws == [] then woken
    else
      var w := ws[|ws| - 1];
      var before := WakeAll(woken, ws[..|ws| - 1], bits);
      if Met(bits, w.value) then before[w.task := Wake(bits + {UNBLOCKED_BY_SET}, w.value)] else before
  }

  /** Exactly the waiters whose condition is not met stay. */
  lemma {:induction false} LeftIff(ws: seq<Waiter>, bits: word, w: Waiter)
    ensures w in Left(ws, bits) <==> w in ws && !Met(bits, w.value)
  {
    hide Met;
    if ws != [] {
      LeftIff(ws[..|ws| - 1], bits, w);
      assert ws == ws[..|ws| - 1] + [ws[|ws| - 1]];
    }
  }

  /** A bit is cleared exactly if some woken waiter asked for it to be. */
  lemma {:induction false} ClearedIff(ws: seq<Waiter>, bits: word, b: nat)
    ensures b in ClearedBy(ws, bits) <==>
              exists w :: w in ws && Met(bits, w.value) && CLEAR_ON_EXIT in w.value && b in w.value - CONTROL
  {
    hide Met;
    if ws != [] {
      var last := ws[|ws| - 1];
      ClearedIff(ws[..|ws| - 1], bits, b);
      assert ws == ws[..|ws| - 1] + [last];
      if b in ClearedBy(ws[..|ws| - 1], bits) {
        var w :| w in ws[..|ws| - 1] && Met(bits, w.value) && CLEAR_ON_EXIT in w.value && b in w.value - CONTROL;
        assert w in ws;
      } else if b in ClearedBy(ws, bits) {
        assert last in ws;
      }
    }
  }

  /** Every waiter of a task of its own whose condition is met wakes with the bits that met it. */
  lemma {:induction false} WakeIff(woken: map<nat, Wake>, ws: seq<Waiter>, bits: word)
    requires OwnTasks(ws) && forall w :: w in ws ==> w.task !in woken
    ensures forall w :: w in ws ==>
              && (w.task in WakeAll(woken, ws, bits) <==> Met(bits, w.value))
              && (Met(bits, w.value) ==> WakeAll(woken, ws, bits)[w.task] == Wake(bits + {UNBLOCKED_BY_SET}, w.value))
    ensures forall t :: (forall w :: w in ws ==> w.task != t) ==>
              (t in WakeAll(woken, ws, bits) <==> t in woken)
              && (t in woken ==> WakeAll(woken, ws, bits)[t] == woken[t])
  {
    hide Met;
    if ws != [] {
      var rest, last := ws[..|ws| - 1], ws[|ws| - 1];
      assert ws == rest + [last];
      assert forall w :: w in rest ==> w in ws;
      assert last in ws;
      OwnTasksPrefix(ws);
      WakeIff(woken, rest, bits);
    }
  }

  /** No task is blocked twice. */
  ghost predicate OwnTasks(ws: seq<Waiter>) {
    forall i, j :: 0 <= i < j < |ws| ==> ws[i].task != ws[j].task
  }

  lemma OwnTasksPrefix(ws: seq<Waiter>)
    requires OwnTasks(ws) && ws != []
    ensures OwnTasks(ws[..|ws| - 1])
    ensures forall w :: w in ws[..|ws| - 1] ==> w.task != ws[|ws| - 1].task
  {
  }

  lemma {:induction false} OwnTasksLeft(ws: seq<Waiter>, bits: word)
    requires OwnTasks(ws)
    ensures OwnTasks(Left(ws, bits))
  {
    hide Met;
    if ws != [] {
      var rest, last := ws[..|ws| - 1], ws[|ws| - 1];
      OwnTasksPrefix(ws);
      OwnTasksLeft(rest, bits);
      forall w | w in Left(rest, bits)
        ensures w.task != last.task
      {
        LeftIff(rest, bits, w);
      }
    }
  }

  // ---- the event group as a state machine ----

  /** expired holds the tasks that have timed out but not run since, with what they asked for. */
  datatype State = State(bits: word, waiting: seq<Waiter>, woken: map<nat, Wake>, expired: map<nat, word>)

  datatype Event =
    | SetBits(toSet: word)
    | ClearBits(toClear: word)
    | WaitBits(task: nat, waitFor: word, clearOnExit: bool, all: bool, block: bool)
    | Sync(task: nat, toSet: word, waitFor: word, block: bool)
    | Expire(at: nat)
    | Resume(task: nat)

  predicate Blocked(s: State, task: nat) {
    (exists i :: 0 <= i < |s.waiting| && s.waiting[i].task == task) || task in s.woken || task in s.expired
  }

  /** What the kernel demands of callers. */
  predicate Allowed(s: State, e: Event) {
    match e
    case SetBits(b) => b !! CONTROL
    case ClearBits(b) => b !! CONTROL
    case WaitBits(task, waitFor, _, _, _) => !Blocked(s, task) && waitFor !! CONTROL && waitFor != {}
    case Sync(task, b, waitFor, _) => !Blocked(s, task) && b !! CONTROL && waitFor !! CONTROL && waitFor != {}
    case Expire(_) => true
    case Resume(task) => task in s.woken || task in s.expired
  }

  function AfterSet(s: State, b: word): State {
    var bits := s.bits + b;
    s.(bits := bits - ClearedBy(s.waiting, bits),
       waiting := Left(s.waiting, bits),
       woken := WakeAll(s.woken, s.waiting, bits))
  }

  function AfterWait(s: State, task: nat, waitFor: word, clearOnExit: bool, all: bool, block: bool): State {
    var value := Asked(waitFor, clearOnExit, all);
    if Met(s.bits, value) then (if clearOnExit then s.(bits := s.bits - waitFor) else s)
    else if block then s.(waiting := s.waiting + [Waiter(task, value)])
    else s
  }

  function AfterSync(s: State, task: nat, b: word, waitFor: word, block: bool): State {
    var s2 := AfterSet(s, b);
    if waitFor <= s.bits + b then s2.(bits := s2.bits - waitFor)
    else if block then s2.(waiting := s2.waiting + [Waiter(task, Asked(waitFor, true, true))])
    else s2
  }

  /** The waiter at position i times out: it leaves the list, but has not run yet. */
  function AfterExpire(s: State, i: nat): State
    requires i < |s.waiting|
  {
    s.(waiting := s.waiting[..i] + s.waiting[i + 1..], expired := s.expired[s.waiting[i].task := s.waiting[i].value])
  }

  /** A task that was blocked runs again.  If it timed out, its condition may have come true since;
      then it still clears the bits it asked to be cleared. */
  function AfterResume(s: State, task: nat): State
    requires task in s.woken || task in s.expired
  {
    if task in s.woken then s.(woken := s.woken - {task})
    else
      var asked := s.expired[task];
      var t := s.(expired := s.expired - {task});
      if Met(s.bits, asked) && CLEAR_ON_EXIT in asked then t.(bits := s.bits - (asked - CONTROL)) else t
  }

  /** The value the call returns to that task. */
  function Returned(s: State, task: nat): word {
    if task in s.woken then s.woken[task].value - CONTROL else s.bits - CONTROL
  }

  function Step(s: State, e: Event): State
    requires Allowed(s, e)
  {
    match e
    case SetBits(b) => AfterSet(s, b)
    case ClearBits(b) => s.(bits := s.bits - b)
    case WaitBits(task, waitFor, clearOnExit, all, block) => AfterWait(s, task, waitFor, clearOnExit, all, block)
    case Sync(task, b, waitFor, block) => AfterSync(s, task, b, waitFor, block)
    case Expire(i) => if i < |s.waiting| then AfterExpire(s, i) else s
    case Resume(task) => AfterResume(s, task)
  }

  predicate Orderly(s: State, events: seq<Event>)
    decreases |events|
  {
    events == [] || (Allowed(s, events[0]) && Orderly(Step(s, events[0]), events[1..]))
  }

  function Run(s: State, events: seq<Event>): State
    requires Orderly(s, events)
    decreases |events|
  {
    if events == [] then s else Run(Step(s, events[0]), events[1..])
  }

  const EMPTY := State({}, [], map[], map[])

  /** No blocked waiter's condition is met, and every woken waiter holds a value that meets its. */
  ghost predicate Invariant(s: State) {
    && s.bits !! CONTROL
    && NoneMet(s.waiting, s.bits)
    && OwnTasks(s.waiting)
    && (forall w :: w in s.waiting ==> w.task !in s.woken && w.task !in s.expired)
    && (forall t :: t in s.woken ==> t !in s.expired)
    && WakesMeet(s.woken)
  }

  ghost predicate NoneMet(ws: seq<Waiter>, bits: word) {
    forall w :: w in ws ==> !Met(bits, w.value)
  }

  ghost predicate WakesMeet(woken: map<nat, Wake>) {
    forall t :: t in woken ==> UNBLOCKED_BY_SET in woken[t].value && Met(woken[t].value - CONTROL, woken[t].asked)
  }

  // Fewer bits meet no more conditions.
  lemma FewerBits(bits: word, fewer: word, value: word)
    requires fewer <= bits && !Met(bits, value)
    ensures !Met(fewer, value)
  {
    assert (value - CONTROL) * fewer <= (value - CONTROL) * bits;
  }

  lemma ClearingKeeps(s: State, b: word)
    requires Invariant(s)
    ensures Invariant(s.(bits := s.bits - b))
  {
    hide Met;
    forall w | w in s.waiting
      ensures !Met(s.bits - b, w.value)
    {
      FewerBits(s.bits, s.bits - b, w.value);
    }
  }

  lemma SettingKeeps(s: State, b: word)
    requires Invariant(s) && b !! CONTROL
    ensures Invariant(AfterSet(s, b))
    ensures forall t :: !Blocked(s, t) ==> !Blocked(AfterSet(s, b), t)
  {
    hide Met, Left, ClearedBy, WakeAll, WakesMeet;
    var bits, n := s.bits + b, AfterSet(s, b);
    WakeIff(s.woken, s.waiting, bits);
    OwnTasksLeft(s.waiting, bits);
    forall w | w in n.waiting
      ensures w in s.waiting && !Met(n.bits, w.value) && w.task !in n.woken && w.task !in n.expired
    {
      LeftIff(s.waiting, bits, w);
      FewerBits(bits, n.bits, w.value);
    }
    forall t | t in n.woken
      ensures t !in n.expired
    {
    }
    WakesStillMeet(s.woken, s.waiting, bits);
    forall t | !Blocked(s, t)
      ensures !Blocked(n, t)
    {
      forall w | w in s.waiting
        ensures w.task != t
      {
      }
      forall i | 0 <= i < |n.waiting|
        ensures n.waiting[i].task != t
      {
        assert n.waiting[i] in n.waiting;
      }
    }
  }

  lemma {:induction false} WakesStillMeet(woken: map<nat, Wake>, ws: seq<Waiter>, bits: word)
    requires WakesMeet(woken) && bits !! CONTROL
    ensures WakesMeet(WakeAll(woken, ws, bits))
  {
    hide Met;
    if ws != [] {
      WakesStillMeet(woken, ws[..|ws| - 1], bits);
      assert bits + {UNBLOCKED_BY_SET} - CONTROL == bits;
    }
  }

  // A task that waits for bits not there is added at the end of the list.
  lemma BlockingKeeps(s: State, task: nat, value: word)
    requires Invariant(s) && !Blocked(s, task) && !Met(s.bits, value)
    ensures Invariant(s.(waiting := s.waiting + [Waiter(task, value)]))
  {
    hide Met;
  }

  lemma ExpiringKeeps(s: State, i: nat)
    requires Invariant(s) && i < |s.waiting|
    ensures Invariant(AfterExpire(s, i))
  {
    hide Met;
    var n := AfterExpire(s, i);
    forall j | 0 <= j < |n.waiting|
      ensures n.waiting[j] == s.waiting[if j < i then j else j + 1] && n.waiting[j].task != s.waiting[i].task
    {
    }
    assert forall w :: w in n.waiting ==> w in s.waiting && w.task != s.waiting[i].task;
    assert s.waiting[i] in s.waiting;
  }

  lemma ResumingKeeps(s: State, task: nat)
    requires Invariant(s) && (task in s.woken || task in s.expired)
    ensures Invariant(AfterResume(s, task))
  {
    hide Met;
    if task in s.woken {
      assert WakesMeet(s.woken - {task});
    } else {
      var t := s.(expired := s.expired - {task});
      assert Invariant(t);
      ClearingKeeps(t, s.expired[task] - CONTROL);
    }
  }

  lemma AskedIs(waitFor: word, clearOnExit: bool, all: bool)
    requires waitFor !! CONTROL
    ensures Asked(waitFor, clearOnExit, all) - CONTROL == waitFor
    ensures WAIT_FOR_ALL in Asked(waitFor, clearOnExit, all) <==> all
    ensures CLEAR_ON_EXIT in Asked(waitFor, clearOnExit, all) <==> clearOnExit
  {
    assert WAIT_FOR_ALL in CONTROL && CLEAR_ON_EXIT in CONTROL;
  }

  /** Waiting never adds a waiter whose condition is met. */
  lemma StepKeepsInvariant(s: State, e: Event)
    requires Invariant(s) && Allowed(s, e)
    ensures Invariant(Step(s, e))
  {
    hide Met, Invariant, AfterSet, Blocked, AfterExpire, AfterResume, Asked;
    match e
    case SetBits(b) => SettingKeeps(s, b);
    case ClearBits(b) => ClearingKeeps(s, b);
    case WaitBits(task, waitFor, clearOnExit, all, block) =>
      var value := Asked(waitFor, clearOnExit, all);
      if Met(s.bits, value) {
        ClearingKeeps(s, waitFor);
      } else if block {
        BlockingKeeps(s, task, value);
      }
    case Sync(task, b, waitFor, block) =>
      var s2 := AfterSet(s, b);
      SettingKeeps(s, b);
      if waitFor <= s.bits + b {
        ClearingKeeps(s2, waitFor);
      } else if block {
        SyncNotMet(s, b, waitFor);
        BlockingKeeps(s2, task, Asked(waitFor, true, true));
      }
    case Expire(i) =>
      if i < |s.waiting| {
        ExpiringKeeps(s, i);
      }
    case Resume(task) => ResumingKeeps(s, task);
  }

  lemma SyncNotMet(s: State, b: word, waitFor: word)
    requires waitFor !! CONTROL && !(waitFor <= s.bits + b)
    ensures !Met(AfterSet(s, b).bits, Asked(waitFor, true, true))
  {
    AskedIs(waitFor, true, true);
  }

  /** In every reachable state no blocked waiter's condition is met by the current bits, and each
      woken waiter will be given a value that meets its condition. */
  lemma NobodyWaitsInVain(events: seq<Event>)
    requires Orderly(EMPTY, events)
    ensures var s := Run(EMPTY, events);
            && (forall w :: w in s.waiting ==> !Met(s.bits, w.value))
            && (forall t :: t in s.woken ==> Met(Returned(s, t), s.woken[t].asked))
  {
    hide Met;
    RunKeepsInvariant(EMPTY, events);
  }

  lemma {:induction false} RunKeepsInvariant(s: State, events: seq<Event>)
    requires Invariant(s) && Orderly(s, events)
    ensures Invariant(Run(s, events))
    decreases |events|
  {
    hide Invariant, Step, Allowed;
    if events != [] {
      StepKeepsInvariant(s, events[0]);
      RunKeepsInvariant(Step(s, events[0]), events[1..]);
    }
  }

  /** What setting bits leaves: a bit is set afterwards exactly if it was or is being set, and no
      waiter that this wakes asked for it to be cleared. */
  lemma SetLeaves(s: State, b: word, k: nat)
    ensures k in AfterSet(s, b).bits <==>
              && (k in s.bits || k in b)
              && !exists w :: w in s.waiting && Met(s.bits + b, w.value) && CLEAR_ON_EXIT in w.value
                              && k in w.value - CONTROL
  {
    hide Met, Left, WakeAll;
    ClearedIff(s.waiting, s.bits + b, k);
  }

  /** Whom setting wakes: exactly the waiters whose condition the old and new bits together meet leave
      the list, the others keep their order, and each of those finds these bits, before any clearing,
      in its list item. */
  lemma SetWakes(s: State, b: word) returns (kept: seq<nat>)
    requires Invariant(s) && b !! CONTROL
    ensures var n := AfterSet(s, b);
            && InOrder(s.waiting, n.waiting, kept) && NotMet(s.waiting, s.bits + b, kept) && n.expired == s.expired
            && (forall w :: w in s.waiting && Met(s.bits + b, w.value) ==>
                  w.task in n.woken && n.woken[w.task] == Wake(s.bits + b + {25}, w.value))
  {
    hide Met, ClearedBy;
    kept := LeftOf(s.waiting, s.bits + b);
    WakeIff(s.woken, s.waiting, s.bits + b);
  }

  lemma NoneLeft(bits: word)
    ensures Left([], bits) == []
  {
  }

  lemma LastLeft(ws: seq<Waiter>, bits: word)
    requires ws != []
    ensures Left(ws, bits) ==
              Left(ws[..|ws| - 1], bits) + (if Met(bits, ws[|ws| - 1].value) then [] else [ws[|ws| - 1]])
  {
    hide Met;
  }

  ghost predicate InOrder(ws: seq<Waiter>, left: seq<Waiter>, kept: seq<nat>) {
    && |left| == |kept|
    && (forall i :: 0 <= i < |kept| ==> kept[i] < |ws| && left[i] == ws[kept[i]])
    && (forall i, j :: 0 <= i < j < |kept| ==> kept[i] < kept[j])
  }

  ghost predicate NotMet(ws: seq<Waiter>, bits: word, kept: seq<nat>) {
    forall k: nat :: k < |ws| ==> (k in kept <==> !Met(bits, ws[k].value))
  }

  lemma {:induction false} LeftOf(ws: seq<Waiter>, bits: word) returns (kept: seq<nat>)
    ensures InOrder(ws, Left(ws, bits), kept) && NotMet(ws, bits, kept)
  {
    hide Met, Left, InOrder, NotMet;
    NoneLeft(bits);
    if ws == [] {
      kept := [];
      NoneInOrder(ws, bits);
    } else {
      var n := |ws| - 1;
      LastLeft(ws, bits);
      var before := LeftOf(ws[..n], bits);
      kept := if Met(bits, ws[n].value) then before else before + [n];
      LastInOrder(ws, Left(ws[..n], bits), before);
      LastMet(ws, bits, Left(ws[..n], bits), before);
      assert Left(ws[..n], bits) + [] == Left(ws[..n], bits);
    }
  }

  lemma NoneInOrder(ws: seq<Waiter>, bits: word)
    requires ws == []
    ensures InOrder(ws, [], []) && NotMet(ws, bits, [])
  {
  }

  lemma LastInOrder(ws: seq<Waiter>, left: seq<Waiter>, kept: seq<nat>)
    requires ws != [] && InOrder(ws[..|ws| - 1], left, kept)
    ensures InOrder(ws, left, kept) && InOrder(ws, left + [ws[|ws| - 1]], kept + [|ws| - 1])
  {
  }

  lemma LastMet(ws: seq<Waiter>, bits: word, left: seq<Waiter>, kept: seq<nat>)
    requires ws != [] && InOrder(ws[..|ws| - 1], left, kept) && NotMet(ws[..|ws| - 1], bits, kept)
    ensures NotMet(ws, bits, if Met(bits, ws[|ws| - 1].value) then kept else kept + [|ws| - 1])
  {
    hide Met, InOrder;
    var n := |ws| - 1;
    NotInOrder(ws[..n], left, kept, n);
    var kept2 := if Met(bits, ws[n].value) then kept else kept + [n];
    forall k: nat | k < |ws|
      ensures k in kept2 <==> !Met(bits, ws[k].value)
    {
      InAppended(kept, n, k);
      if k < n {
        assert ws[..n][k] == ws[k];
      }
    }
  }

  lemma NotInOrder(ws: seq<Waiter>, left: seq<Waiter>, kept: seq<nat>, n: nat)
    requires InOrder(ws, left, kept) && n >= |ws|
    ensures n !in kept
  {
  }

  lemma InAppended(kept: seq<nat>, n: nat, k: nat)
    ensures k in kept + [n] <==> k in kept || k == n
  {
  }

  /** What a wait condition is, for bits without control bits. */
  lemma MetIff(bits: word, waitFor: word, clearOnExit: bool, all: bool)
    requires waitFor !! CONTROL
    ensures Met(bits, Asked(waitFor, clearOnExit, all)) <==> if all then waitFor <= bits else waitFor * bits != {}
    ensures Asked(waitFor, clearOnExit, all) ==
            waitFor + (if clearOnExit then {24} else {}) + (if all then {26} else {})
  {
    AskedIs(waitFor, clearOnExit, all);
  }

  /** What a rendezvous leaves: of the bits that were or are being set those that no woken waiter
      asked to be cleared, and without those waited for if all of them were there. */
  lemma SyncLeaves(s: State, task: nat, b: word, waitFor: word, block: bool, k: nat)
    ensures k in AfterSync(s, task, b, waitFor, block).bits <==>
              && (k in s.bits || k in b) && !(waitFor <= s.bits + b && k in waitFor)
              && !exists w :: w in s.waiting && Met(s.bits + b, w.value) && CLEAR_ON_EXIT in w.value
                              && k in w.value - CONTROL
  {
    hide Met, AfterSet;
    SetLeaves(s, b, k);
  }

  /** A rendezvous: the last task to arrive leaves none of the bits waited for behind, whichever
      tasks were waiting. */
  lemma RendezvousClears(s: State, task: nat, b: word, waitFor: word, block: bool)
    requires waitFor <= s.bits + b
    ensures AfterSync(s, task, b, waitFor, block).bits * waitFor == {}
    ensures forall w :: w in s.waiting && Met(s.bits + b, w.value) ==>
              w !in AfterSync(s, task, b, waitFor, block).waiting
  {
    hide Met;
    forall w | w in s.waiting && Met(s.bits + b, w.value)
      ensures w !in Left(s.waiting, s.bits + b)
    {
      LeftIff(s.waiting, s.bits + b, w);
    }
  }

  // ---- the event group ----

  class EventGroup {
    var bits: word
    var waiting: seq<Waiter>
    // The list items of tasks that were woken, and those of tasks that timed out.
    var woken: map<nat, Wake>
    var expired: map<nat, word>

    ghost function View(): State
      reads this
    {
      State(bits, waiting, woken, expired)
    }

    constructor ()
      ensures View() == EMPTY
    {
      bits, waiting, woken, expired := {}, [], map[], map[];
    }

    /** The test of one list item, and the bits it wants cleared if it matches. */
    static method TestItem(bits: word, value: word) returns (matchFound: bool, clear: word)
      ensures matchFound <==> Met(bits, value)
      ensures matchFound <==> if 26 in value then value - CONTROL <= bits else (value - CONTROL) * bits != {}
      ensures clear == if 24 in value then value - CONTROL else {}
    {
      WordTest(bits, value);
      var control, waitedFor := value * CONTROL, value - CONTROL;
      matchFound, clear := false, {};
      if WAIT_FOR_ALL !in control {
        if waitedFor * bits != {} {
          matchFound := true;
        }
      } else if waitedFor * bits == waitedFor {
        matchFound := true;
      }
      if CLEAR_ON_EXIT in control {
        clear := waitedFor;
      }
    }

    /** vTaskRemoveFromUnorderedEventList: the waiter leaves the list with a new item value. */
    method Unblock(i: nat, value: word)
      requires i < |waiting|
      modifies this`waiting, this`woken
      ensures waiting == old(waiting)[..i] + old(waiting)[i + 1..]
      ensures woken == old(woken)[old(waiting)[i].task := Wake(value, old(waiting)[i].value)]
    {
      woken := woken[waiting[i].task := Wake(value, waiting[i].value)];
      waiting := waiting[..i] + waiting[i + 1..];
    }

    /** xEventGroupSetBits: walks the list of blocked tasks, taking out those whose condition the
        bits now meet; clearing waits until the whole list has been walked. */
    method SetBits(toSet: word) returns (result: word)
      requires toSet !! CONTROL
      modifies this
      ensures View() == AfterSet(old(View()), toSet) && result == bits
    {
      hide Left, ClearedBy, WakeAll, Met;
      var toClear: word := {};
      bits := bits + toSet;
      ghost var all, k, now, before := waiting, 0, bits, woken;
      StartOfWalk(before, now);
      var i := 0;
      while i < |waiting|
        invariant k <= |all| && bits == now && i == |Left(all[..k], now)|
        invariant waiting == Left(all[..k], now) + all[k..]
        invariant toClear == ClearedBy(all[..k], now) && woken == WakeAll(before, all[..k], now)
        invariant expired == old(expired)
        decreases |all| - k
      {
        WalkStep(waiting, Left(all[..k], now), all, k);
        OneFurther(all, k, now, before);
        var item := waiting[i];
        var matchFound, clear := TestItem(bits, item.value);
        if matchFound {
          toClear := toClear + clear;
          Unblock(i, bits + {UNBLOCKED_BY_SET});
        } else {
          i := i + 1;
        }
        k := k + 1;
      }
      WalkDone(waiting, Left(all[..k], now), all, k);
      bits := bits - toClear;
      result := bits;
    }

    /** xEventGroupClearBits. */
    method ClearBits(toClear: word) returns (result: word)
      requires toClear !! CONTROL
      modifies this`bits
      ensures View() == Step(old(View()), Event.ClearBits(toClear)) && result == old(bits)
      ensures bits == old(bits) - toClear
    {
      result := bits;
      bits := bits - toClear;
    }

    /** xEventGroupWaitBits up to the point where the task blocks or returns. */
    method WaitBits(task: nat, waitFor: word, clearOnExit: bool, all: bool, block: bool)
      returns (blocked: bool, result: word)
      requires Allowed(View(), Event.WaitBits(task, waitFor, clearOnExit, all, block))
      modifies this`bits, this`waiting
      ensures View() == AfterWait(old(View()), task, waitFor, clearOnExit, all, block)
      ensures var met := if all then waitFor <= old(bits) else waitFor * old(bits) != {};
              && (blocked <==> block && !met)
              && bits == if met && clearOnExit then old(bits) - waitFor else old(bits)
      ensures !blocked ==> result == old(bits) && waiting == old(waiting)
      ensures blocked ==>
                waiting == old(waiting) +
                  [Waiter(task, waitFor + (if clearOnExit then {24} else {}) + (if all then {26} else {}))]
    {
      MetIff(bits, waitFor, clearOnExit, all);
      AskedIs(waitFor, clearOnExit, all);
      blocked, result := false, bits;
      var met := TestWaitCondition(bits, waitFor, all);
      if met {
        if clearOnExit {
          bits := bits - waitFor;
        }
      } else if block {
        var control: word := {};
        if clearOnExit {
          control := control + {CLEAR_ON_EXIT};
        }
        if all {
          control := control + {WAIT_FOR_ALL};
        }
        assert waitFor + control == Asked(waitFor, clearOnExit, all);
        waiting := waiting + [Waiter(task, waitFor + control)];
        blocked, result := true, {};
      }
    }

    /** prvTestWaitCondition. */
    static method TestWaitCondition(current: word, waitFor: word, all: bool) returns (met: bool)
      ensures met <==> if all then waitFor <= current else waitFor * current != {}
    {
      met := false;
      if !all {
        if current * waitFor != {} {
          met := true;
        }
      } else {
        if current * waitFor == waitFor {
          met := true;
        }
      }
    }

    /** xEventGroupSync up to the point where the task blocks or returns. */
    method Sync(task: nat, toSet: word, waitFor: word, block: bool) returns (blocked: bool, result: word)
      requires Allowed(View(), Event.Sync(task, toSet, waitFor, block))
      modifies this
      ensures View() == AfterSync(old(View()), task, toSet, waitFor, block)
      ensures blocked <==> block && !(waitFor <= old(bits) + toSet)
      ensures !blocked ==> result == if waitFor <= old(bits) + toSet then old(bits) + toSet else bits
      ensures waitFor <= old(bits) + toSet ==> bits * waitFor == {}
    {
      hide AfterSet;
      var original := bits;
      var _ := SetBits(toSet);
      if (original + toSet) * waitFor == waitFor {
        assert waitFor <= original + toSet;
        result := original + toSet;
        bits := bits - waitFor;
        blocked := false;
      } else {
        blocked, result := block, {};
        if block {
          assert waitFor + {CLEAR_ON_EXIT} + {WAIT_FOR_ALL} == Asked(waitFor, true, true);
          waiting := waiting + [Waiter(task, waitFor + {CLEAR_ON_EXIT} + {WAIT_FOR_ALL})];
        } else {
          result := bits;
        }
      }
    }

    /** The kernel takes a blocked task whose time is up off the list. */
    method ExpireWait(at: nat)
      requires at < |waiting|
      modifies this`waiting, this`expired
      ensures View() == AfterExpire(old(View()), at)
      ensures waiting == old(waiting)[..at] + old(waiting)[at + 1..]
      ensures expired == old(expired)[old(waiting)[at].task := old(waiting)[at].value]
    {
      expired := expired[waiting[at].task := waiting[at].value];
      waiting := waiting[..at] + waiting[at + 1..];
    }

    /** The rest of xEventGroupWaitBits, once the task runs again: a task woken by bits being set
        finds them in its list item; one that timed out looks at the bits of now, and clears what
        it asked to be cleared if its condition has come true meanwhile. */
    method ResumeWait(task: nat, waitFor: word, clearOnExit: bool, all: bool) returns (result: word)
      requires task in woken || task in expired
      requires waitFor !! CONTROL
      requires task in woken ==> woken[task].asked == Asked(waitFor, clearOnExit, all)
      requires task !in woken ==> expired[task] == Asked(waitFor, clearOnExit, all)
      requires Invariant(View())
      modifies this`bits, this`woken, this`expired
      ensures View() == AfterResume(old(View()), task) && result == Returned(old(View()), task)
      ensures task in old(woken) ==>
                && bits == old(bits) && result == old(woken)[task].value - CONTROL
                && woken == old(woken) - {task} && expired == old(expired)
      ensures task !in old(woken) ==>
                && result == old(bits) && woken == old(woken) && expired == old(expired) - {task}
                && var met := if all then waitFor <= old(bits) else waitFor * old(bits) != {};
                   bits == if met && clearOnExit then old(bits) - waitFor else old(bits)
      ensures task in old(woken) ==> Met(result, Asked(waitFor, clearOnExit, all))
    {
      AskedIs(waitFor, clearOnExit, all);
      result := if task in woken then woken[task].value else {};
      if UNBLOCKED_BY_SET !in result {
        result := bits;
        var met := TestWaitCondition(result, waitFor, all);
        if met {
          if clearOnExit {
            bits := bits - waitFor;
          }
        }
        expired := expired - {task};
      } else {
        woken := woken - {task};
      }
      result := result - CONTROL;
    }
  }

  lemma StartOfWalk(woken: map<nat, Wake>, bits: word)
    ensures Left([], bits) == [] && ClearedBy([], bits) == {} && WakeAll(woken, [], bits) == woken
  {
  }

  lemma WalkStep(list: seq<Waiter>, left: seq<Waiter>, all: seq<Waiter>, k: nat)
    requires k <= |all| && list == left + all[k..] && |left| < |list|
    ensures k < |all| && list[|left|] == all[k]
    ensures list[..|left|] + list[|left| + 1..] == left + all[k + 1..]
    ensures list == (left + [all[k]]) + all[k + 1..]
  {
  }

  lemma WalkDone(list: seq<Waiter>, left: seq<Waiter>, all: seq<Waiter>, k: nat)
    requires k <= |all| && list == left + all[k..] && |left| >= |list|
    ensures list == left && all[..k] == all
  {
  }

  lemma OneFurther(ws: seq<Waiter>, k: nat, bits: word, woken: map<nat, Wake>)
    requires k < |ws|
    ensures var a, b, w := ws[..k], ws[..k + 1], ws[k];
            && Left(b, bits) == (if Met(bits, w.value) then Left(a, bits) else Left(a, bits) + [w])
            && (Met(bits, w.value) ==>
                  ClearedBy(b, bits) ==
                    ClearedBy(a, bits) + (if CLEAR_ON_EXIT in w.value then w.value - CONTROL else {}))
            && (!Met(bits, w.value) ==> ClearedBy(b, bits) == ClearedBy(a, bits))
            && WakeAll(woken, b, bits) == if Met(bits, w.value)
                 then WakeAll(woken, a, bits)[w.task := Wake(bits + {UNBLOCKED_BY_SET}, w.value)]
                 else WakeAll(woken, a, bits)
  {
    hide Met;
    assert ws[..k + 1][..k] == ws[..k];
  }

  /** The tests on masked words decide the condition. */
  lemma WordTest(bits: word, value: word)
    ensures WAIT_FOR_ALL in value * CONTROL <==> WAIT_FOR_ALL in value
    ensures CLEAR_ON_EXIT in value * CONTROL <==> CLEAR_ON_EXIT in value
    ensures (value - CONTROL) * bits == value - CONTROL <==> value - CONTROL <= bits
  {
    assert WAIT_FOR_ALL in CONTROL && CLEAR_ON_EXIT in CONTROL;
    var a := value - CONTROL;
    if a <= bits {
      assert a * bits == a;
    }
    if a * bits == a {
      assert a * bits <= bits;
    }
  }
}
