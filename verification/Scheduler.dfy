/** The timer-driven round robin over kernel threads, and how long a thread can wait. */
module Scheduler {
  import opened Machine

  datatype ThreadState = Ready | Running | Blocked | Terminated

  /** The scheduling fields of vfs::Thread; `regs` is the address of its saved frame. */
  datatype Thread = Thread(regs: nat, state: ThreadState, priority: Byte, work: Byte)

  /** `Threads` and `current_thread`; -1 means that nothing runs. */
  datatype State = State(threads: seq<Thread>, current: int)

  predicate Wf(s: State) {
    -1 <= s.current < |s.threads|
  }

  predicate Runnable(t: Thread) {
    t.state != Terminated && t.state != Blocked
  }

  /** `(start + i) % n`, for the i from 1 to n that the search tries. */
  function Index(start: nat, i: nat, n: nat): (r: int)
    requires start < n && 1 <= i <= n
    ensures 0 <= r < n
  {
    if start + i < n then start + i else start + i - n
  }

  lemma IndexIsMod(start: nat, i: nat, n: nat)
    requires start < n && 1 <= i <= n
    ensures Index(start, i, n) == (start + i) % n
  {
    var q := if start + i < n then 0 else 1;
    DivUnique(start + i, n, q, start + i - q * n);
  }

  /** How many places thread j comes after thread `start` in the round, from 1 to n. */
  function Distance(start: nat, j: nat, n: nat): (d: int)
    requires start < n && j < n
    ensures 1 <= d <= n
    ensures Index(start, d, n) == j
  {
    if j > start then j - start else j - start + n
  }

  /** The search of pick_next_runnable from the i-th candidate on. */
  function PickFrom(threads: seq<Thread>, start: nat, i: nat): (r: int)
    requires start < |threads| && 1 <= i <= |threads| + 1
    ensures -1 <= r < |threads|
    decreases |threads| + 1 - i
  {
    if i > |threads| then -1
    else if Runnable(threads[Index(start, i, |threads|)]) then Index(start, i, |threads|)
    else PickFrom(threads, start, i + 1)
  }

  function Pick(s: State): (r: int)
    requires Wf(s)
    ensures -1 <= r < |s.threads|
  {
    if s.threads == [] then -1
    else PickFrom(s.threads, if s.current < 0 then 0 else s.current, 1)
  }

  /** schedule: the running thread's frame is saved, the next one's is returned. */
  function Schedule(s: State, regs: nat): (State, nat)
    requires Wf(s)
  {
    if s.current < 0 then (s, regs)
    else
      var saved := s.threads[s.current := s.threads[s.current].(regs := regs)];
      var next := Pick(s.(threads := saved));
      if next < 0 then (s.(threads := saved), regs)
      else (State(saved[next := saved[next].(work := 0)], next), saved[next].regs)
  }

  /** exit_current, up to the switch; -1 when it halts. `work` of the next thread stays. */
  function Exit(s: State): State
    requires Wf(s)
  {
    var threads := if s.current >= 0 then s.threads[s.current := s.threads[s.current].(state := Terminated)] else s.threads;
    State(threads, Pick(s.(threads := threads)))
  }

  /** The frame that exit_current restores, or none when it halts. */
  function ExitFrame(s: State): Option<nat>
    requires Wf(s)
  {
    if Exit(s).current < 0 then None else Some(s.threads[Exit(s).current].regs)
  }

  function Worked(t: Thread): Thread {
    t.(work := if t.work == 255 then 0 else t.work + 1)
  }

  /** The timer ends the turn of this thread (its work already counted). */
  predicate TurnOver(t: Thread) {
    t.state == Terminated || t.work == t.priority || t.priority == 0
  }

  /** The timer branch of isr_common. */
  function Tick(s: State, regs: nat): (State, nat)
    requires Wf(s)
  {
    if s.current < 0 then (s, regs)
    else
      var t := Worked(s.threads[s.current]);
      var worked := s.(threads := s.threads[s.current := t]);
      if TurnOver(t) then Schedule(worked, regs) else (worked, regs)
  }

  class Scheduler {
    var threads: seq<Thread>
    var current: int
    var tick: nat

    predicate Valid()
      reads this
    {
      Wf(Value())
    }

    function Value(): State
      reads this
    {
      State(threads, current)
    }

    constructor (threads: seq<Thread>)
      requires threads != []
      ensures Valid() && Value() == State(threads, 0)
    {
      this.threads := threads;
      current := 0;
      tick := 0;
    }

    method PickNextRunnable() returns (next: int)
      requires Valid()
      ensures next == Pick(Value())
    {
      if threads == [] {
        return -1;
      }
      var start := if current < 0 then 0 else current;
      var i := 1;
      while i <= |threads|
        invariant 1 <= i <= |threads| + 1
        invariant PickFrom(threads, start, i) == PickFrom(threads, start, 1)
      {
        IndexIsMod(start, i, |threads|);
        var index := (start + i) % |threads|;
        var state := threads[index].state;
        if state != Terminated && state != Blocked {
          return index;
        }
        i := i + 1;
      }
      return -1;
    }

    method DoSchedule(regs: nat) returns (frame: nat)
      requires Valid()
      modifies this`threads, this`current
      ensures Valid() && (Value(), frame) == Schedule(old(Value()), regs)
    {
      if current < 0 {
        return regs;
      }
      threads := threads[current := threads[current].(regs := regs)];
      var next := PickNextRunnable();
      if next < 0 {
        return regs;
      }
      current := next;
      threads := threads[next := threads[next].(work := 0)];
      return threads[next].regs;
    }

    method ExitCurrent() returns (frame: Option<nat>)
      requires Valid()
      modifies this`threads, this`current
      ensures Valid() && Value() == Exit(old(Value())) && frame == ExitFrame(old(Value()))
    {
      if current >= 0 && current < |threads| {
        threads := threads[current := threads[current].(state := Terminated)];
      }
      var next := PickNextRunnable();
      if next < 0 {
        current := -1;
        return None;
      }
      current := next;
      return Some(threads[next].regs);
    }

    method TimerInterrupt(regs: nat) returns (frame: nat)
      requires Valid()
      modifies this
      ensures Valid() && (Value(), frame) == Tick(old(Value()), regs)
      ensures tick == old(tick) + 1
    {
      frame := regs;
      tick := tick + 1;
      if current >= 0 {
        var work := threads[current].work;
        threads := threads[current := threads[current].(work := if work == 255 then 0 else work + 1)];
        var t := threads[current];
        if t.state == Terminated || t.work == t.priority || t.priority == 0 {
          frame := DoSchedule(regs);
        }
      }
    }
  }

  // ----- the choice -----

  /** The pick is the nearest runnable thread in the round; there is none exactly when no
      thread is runnable. */
  lemma {:induction false} PickNearest(threads: seq<Thread>, start: nat, i: nat, j: nat)
    requires start < |threads| && 1 <= i <= |threads| + 1 && j < |threads|
    requires Runnable(threads[j]) && Distance(start, j, |threads|) >= i
    ensures var r := PickFrom(threads, start, i);
            && 0 <= r && Runnable(threads[r])
            && i <= Distance(start, r, |threads|) <= Distance(start, j, |threads|)
    decreases |threads| + 1 - i
  {
    var n := |threads|;
    if !Runnable(threads[Index(start, i, n)]) {
      PickNearest(threads, start, i + 1, j);
    }
  }

  lemma {:induction false} PickNone(threads: seq<Thread>, start: nat, i: nat)
    requires start < |threads| && 1 <= i <= |threads| + 1
    requires forall j :: 0 <= j < |threads| ==> !Runnable(threads[j])
    ensures PickFrom(threads, start, i) == -1
    decreases |threads| + 1 - i
  {
    if i <= |threads| {
      PickNone(threads, start, i + 1);
    }
  }

  /** Going from `start` past `next` towards t shortens the way by the step taken. */
  lemma DistanceShrinks(start: nat, next: nat, t: nat, n: nat)
    requires start < n && next < n && t < n && next != t
    requires Distance(start, next, n) <= Distance(start, t, n)
    ensures Distance(next, t, n) == Distance(start, t, n) - Distance(start, next, n)
  {
  }

  /** One selection: t itself, or a thread from which the way to t is shorter. */
  lemma SelectionApproaches(s: State, t: nat)
    requires Wf(s) && 0 <= s.current && t < |s.threads| && t != s.current && Runnable(s.threads[t])
    ensures var next := Pick(s);
            && 0 <= next && Runnable(s.threads[next])
            && (next == t || Distance(next, t, |s.threads|) < Distance(s.current, t, |s.threads|))
  {
    PickNearest(s.threads, s.current, 1, t);
    if Pick(s) != t {
      DistanceShrinks(s.current, Pick(s), t, |s.threads|);
    }
  }

  // ----- turns -----

  /** Ticks until the timer ends the turn of the running thread. */
  function TicksLeft(t: Thread): (k: nat)
    ensures 1 <= k <= 256
  {
    if t.state == Terminated || t.priority == 0 then 1
    else if t.work < t.priority then t.priority - t.work
    else t.priority - t.work + 256
  }

  /** A turn lasts exactly that many ticks: every tick but the last only counts down. */
  lemma TickCounts(s: State, regs: nat)
    requires Wf(s) && 0 <= s.current
    ensures var t := s.threads[s.current];
            var s' := Tick(s, regs).0;
            if TicksLeft(t) > 1 then
              && s'.current == s.current
              && TicksLeft(s'.threads[s.current]) == TicksLeft(t) - 1
            else
              TurnOver(Worked(t)) && s' == Schedule(s.(threads := s.threads[s.current := Worked(t)]), regs).0
  {
  }

  /** A turn begun by schedule lasts max(1, priority) ticks. */
  lemma ScheduledTurn(s: State, regs: nat)
    requires Wf(s) && 0 <= s.current && Pick(s) >= 0
    ensures var s' := Schedule(s, regs).0;
            var t := s'.threads[s'.current];
            && 0 <= s'.current
            && (t.state != Terminated ==> TicksLeft(t) == if t.priority == 0 then 1 else t.priority)
  {
    SameChoice(s, s.threads[s.current := s.threads[s.current].(regs := regs)]);
  }

  /** The choice looks at states alone. */
  lemma SameChoice(s: State, threads: seq<Thread>)
    requires Wf(s) && |threads| == |s.threads|
    requires forall j :: 0 <= j < |threads| ==> threads[j].state == s.threads[j].state
    ensures Pick(s.(threads := threads)) == Pick(s)
  {
    if threads != [] {
      SameSearch(s.threads, threads, if s.current < 0 then 0 else s.current, 1);
    }
  }

  lemma {:induction false} SameSearch(a: seq<Thread>, b: seq<Thread>, start: nat, i: nat)
    requires |a| == |b| && start < |a| && 1 <= i <= |a| + 1
    requires forall j :: 0 <= j < |a| ==> a[j].state == b[j].state
    ensures PickFrom(b, start, i) == PickFrom(a, start, i)
    decreases |a| + 1 - i
  {
    if i <= |a| {
      SameSearch(a, b, start, i + 1);
    }
  }

  // ----- runs -----

  /** What can happen: a timer tick, the running thread exits, another part of the kernel
      changes the state of a thread that has not terminated. */
  datatype Event = TimerTick(regs: nat) | ExitThread | SetState(thread: nat, state: ThreadState)

  predicate Enabled(s: State, e: Event, t: nat) {
    match e
    case TimerTick(_) => true
    case ExitThread => true
    case SetState(i, st) => i < |s.threads| && i != t && s.threads[i].state != Terminated
  }

  function Next(s: State, e: Event): State
    requires Wf(s)
  {
    match e
    case TimerTick(regs) => Tick(s, regs).0
    case ExitThread => Exit(s)
    case SetState(i, st) =>
      if i < |s.threads| then s.(threads := s.threads[i := s.threads[i].(state := st)]) else s
  }

  /** Did the event choose a thread? */
  predicate Selects(s: State, e: Event)
    requires Wf(s) && 0 <= s.current
  {
    e.ExitThread? || (e.TimerTick? && TurnOver(Worked(s.threads[s.current])))
  }

  /** Thread t is runnable but not running. */
  predicate Waiting(s: State, t: nat) {
    Wf(s) && 0 <= s.current && t < |s.threads| && t != s.current && Runnable(s.threads[t])
  }

  /** In this run t is never chosen. */
  predicate Starves(s: State, events: seq<Event>, t: nat)
    decreases |events|
  {
    && Waiting(s, t)
    && (events == [] || (Enabled(s, events[0], t) && Starves(Next(s, events[0]), events[1..], t)))
  }

  function Ticks(events: seq<Event>): nat {
    if events == [] then 0 else (if events[0].TimerTick? then 1 else 0) + Ticks(events[1..])
  }

  function Selections(s: State, events: seq<Event>, t: nat): nat
    requires Starves(s, events, t)
    decreases |events|
  {
    if events == [] then 0
    else (if Selects(s, events[0]) then 1 else 0) + Selections(Next(s, events[0]), events[1..], t)
  }

  /** Selections still to come before t's, and ticks still to come. */
  function WaitSelections(s: State, t: nat): int
    requires Waiting(s, t)
  {
    Distance(s.current, t, |s.threads|)
  }

  function WaitTicks(s: State, t: nat): int
    requires Waiting(s, t)
  {
    (Distance(s.current, t, |s.threads|) - 1) * 256 + TicksLeft(s.threads[s.current])
  }

  /** After a selection that is not t's, both measures have dropped. */
  lemma SelectionDrops(s: State, s': State, t: nat)
    requires Waiting(s, t) && Waiting(s', t) && |s'.threads| == |s.threads|
    requires Distance(s'.current, t, |s.threads|) < Distance(s.current, t, |s.threads|)
    ensures WaitSelections(s', t) <= WaitSelections(s, t) - 1
    ensures WaitTicks(s', t) <= WaitTicks(s, t) - 1
  {
  }

  lemma ScheduleApproaches(s: State, regs: nat, t: nat)
    requires Waiting(s, t)
    ensures var s' := Schedule(s, regs).0;
            && |s'.threads| == |s.threads| && 0 <= s'.current < |s.threads|
            && s'.threads[t].state == s.threads[t].state
            && (s'.current != t ==> Distance(s'.current, t, |s.threads|) < Distance(s.current, t, |s.threads|))
  {
    SameChoice(s, s.threads[s.current := s.threads[s.current].(regs := regs)]);
    SelectionApproaches(s, t);
  }

  lemma ExitApproaches(s: State, t: nat)
    requires Waiting(s, t)
    ensures var s' := Exit(s);
            && |s'.threads| == |s.threads| && 0 <= s'.current < |s.threads|
            && s'.threads[t].state == s.threads[t].state
            && (s'.current != t ==> Distance(s'.current, t, |s.threads|) < Distance(s.current, t, |s.threads|))
  {
    SelectionApproaches(s.(threads := s.threads[s.current := s.threads[s.current].(state := Terminated)]), t);
  }

  /** Every event of a run that passes t over brings t nearer, by selections and by ticks. */
  lemma EventApproaches(s: State, e: Event, t: nat)
    requires Waiting(s, t) && Enabled(s, e, t) && Waiting(Next(s, e), t)
    ensures var s' := Next(s, e);
            && WaitSelections(s', t) + (if Selects(s, e) then 1 else 0) <= WaitSelections(s, t)
            && WaitTicks(s', t) + (if e.TimerTick? then 1 else 0) <= WaitTicks(s, t)
  {
    hide Schedule, Exit, TicksLeft;
    match e
    case TimerTick(regs) =>
      TickCounts(s, regs);
      TurnLeft(s.threads[s.current]);
      var worked := s.(threads := s.threads[s.current := Worked(s.threads[s.current])]);
      if Selects(s, e) {
        ScheduleApproaches(worked, regs, t);
        SelectionDrops(s, Next(s, e), t);
      }
    case ExitThread =>
      ExitApproaches(s, t);
      SelectionDrops(s, Next(s, e), t);
    case SetState(i, st) =>
      if i == s.current {
        StateOnly(s.threads[i], st);
      }
  }

  lemma TurnLeft(t: Thread)
    ensures TurnOver(Worked(t)) <==> TicksLeft(t) == 1
  {
  }

  lemma StateOnly(t: Thread, st: ThreadState)
    requires t.state != Terminated
    ensures TicksLeft(t.(state := st)) <= TicksLeft(t)
  {
  }

  lemma {:induction false} StarvationBounded(s: State, events: seq<Event>, t: nat)
    requires Starves(s, events, t)
    ensures Selections(s, events, t) < WaitSelections(s, t)
    ensures Ticks(events) < WaitTicks(s, t)
    decreases |events|
  {
    hide Next, Selects, Waiting, WaitTicks, WaitSelections;
    if events == [] {
      WaitsPositive(s, t);
    } else {
      StarvesBoth(s, events, t);
      EventApproaches(s, events[0], t);
      StarvationBounded(Next(s, events[0]), events[1..], t);
    }
  }

  lemma StarvesBoth(s: State, events: seq<Event>, t: nat)
    requires Starves(s, events, t) && events != []
    ensures Waiting(s, t) && Waiting(Next(s, events[0]), t) && Enabled(s, events[0], t)
  {
  }

  lemma WaitsPositive(s: State, t: nat)
    requires Waiting(s, t)
    ensures 1 <= WaitSelections(s, t) <= |s.threads| - 1
    ensures 1 <= WaitTicks(s, t) <= (|s.threads| - 1) * 256
  {
  }

  /** A thread that stays runnable is selected after at most n - 1 selections, and within
      256 ticks for each of them, whatever the other threads do. */
  lemma BoundedWaiting(s: State, events: seq<Event>, t: nat)
    requires Starves(s, events, t)
    ensures Selections(s, events, t) < |s.threads| - 1
    ensures Ticks(events) < (|s.threads| - 1) * 256
  {
    StarvationBounded(s, events, t);
    WaitsPositive(s, t);
  }

  // ----- nothing left to run -----

  function After(s: State, events: seq<Event>): (r: State)
    requires Wf(s)
    ensures Wf(r) && |r.threads| == |s.threads|
    decreases |events|
  {
    if events == [] then s else After(Next(s, events[0]), events[1..])
  }

  /** exit_current gives up exactly when no other thread is runnable at that moment. */
  lemma ExitHalts(s: State)
    requires Wf(s)
    ensures Exit(s).current < 0 <==> forall j :: 0 <= j < |s.threads| && j != s.current ==> !Runnable(s.threads[j])
  {
    var threads := Exit(s).threads;
    var start := if s.current < 0 then 0 else s.current;
    if j: nat :| j < |threads| && j != s.current && Runnable(s.threads[j]) {
      PickNearest(threads, start, 1, j);
    } else if threads != [] {
      assert forall j :: 0 <= j < |threads| ==> !Runnable(threads[j]);
      PickNone(threads, start, 1);
    }
  }

  /** And then for good, the other side of the bound: whichever threads become runnable later,
      every tick returns to the halted frame and selects nobody. */
  lemma {:induction false} HaltedForGood(s: State, events: seq<Event>, regs: nat)
    requires Wf(s) && s.current < 0 && forall e :: e in events ==> !e.ExitThread?
    ensures After(s, events).current == -1
    ensures Tick(After(s, events), regs) == (After(s, events), regs)
    decreases |events|
  {
    if events != [] {
      assert events[0] in events;
      HaltedForGood(Next(s, events[0]), events[1..], regs);
    }
  }

  /** Such a run: the last running thread exits while the other one is blocked, and the other
      one, runnable again, is never selected. */
  lemma NeverSelected(s: State, t: nat, st: ThreadState, ticks: seq<Event>)
    requires Wf(s) && 0 <= s.current && t < |s.threads| && t != s.current && s.threads[t].state == Blocked
    requires st == Ready || st == Running
    requires forall j :: 0 <= j < |s.threads| && j != s.current ==> !Runnable(s.threads[j])
    requires forall e :: e in ticks ==> e.TimerTick?
    ensures var r := After(s, [ExitThread, SetState(t, st)] + ticks);
            r.current == -1 && Runnable(r.threads[t])
  {
    hide PickFrom, Pick;
    ExitHalts(s);
    var woken := Next(Next(s, ExitThread), SetState(t, st));
    assert ([ExitThread, SetState(t, st)] + ticks)[1..] == [SetState(t, st)] + ticks;
    assert ([SetState(t, st)] + ticks)[1..] == ticks;
    HaltedTicks(woken, ticks);
  }

  lemma {:induction false} HaltedTicks(s: State, ticks: seq<Event>)
    requires Wf(s) && s.current < 0 && forall e :: e in ticks ==> e.TimerTick?
    ensures After(s, ticks) == s
    decreases |ticks|
  {
    if ticks != [] {
      assert ticks[0] in ticks;
      HaltedTicks(s, ticks[1..]);
    }
  }

  // ----- every thread goes on where it was left -----

  /** Threads run that are ready or running, and a choice fails when there is none. The choice is the
      next one in the round behind the current thread, behind the first one when nothing runs. */
  lemma PickStates(s: State)
    requires Wf(s)
    ensures forall j: nat :: j < |s.threads| && (s.threads[j].state == Ready || s.threads[j].state == Running) ==>
              var start: nat := if s.current == -1 then 0 else s.current;
              0 <= Pick(s) && Distance(start, Pick(s), |s.threads|) <= Distance(start, j, |s.threads|)
    ensures Pick(s) >= 0 ==> s.threads[Pick(s)].state == Ready || s.threads[Pick(s)].state == Running
    ensures Pick(s) == -1 <==> forall j :: 0 <= j < |s.threads| ==> s.threads[j].state == Blocked || s.threads[j].state == Terminated
  {
    if s.threads != [] {
      var start := if s.current < 0 then 0 else s.current;
      PickedRuns(s.threads, start, 1);
      forall j: nat | j < |s.threads| && Runnable(s.threads[j])
        ensures 0 <= Pick(s) && Distance(start, Pick(s), |s.threads|) <= Distance(start, j, |s.threads|)
      {
        PickNearest(s.threads, start, 1, j);
      }
      if j: nat :| j < |s.threads| && Runnable(s.threads[j]) {
        PickNearest(s.threads, start, 1, j);
      } else {
        PickNone(s.threads, start, 1);
      }
    }
  }

  lemma {:induction false} PickedRuns(threads: seq<Thread>, start: nat, i: nat)
    requires start < |threads| && 1 <= i <= |threads| + 1
    ensures var r := PickFrom(threads, start, i); r >= 0 ==> Runnable(threads[r])
    decreases |threads| + 1 - i
  {
    if i <= |threads| {
      PickedRuns(threads, start, i + 1);
    }
  }

  /** The end of a turn saves the frame of the thread that was interrupted, whoever is chosen. */
  lemma TurnSaves(s: State, regs: nat)
    requires Wf(s) && 0 <= s.current && TurnOver(Worked(s.threads[s.current]))
    ensures s.current < |Tick(s, regs).0.threads| && Tick(s, regs).0.threads[s.current].regs == regs
  {
    hide PickFrom, TurnOver;
  }

  /** Other parts of the kernel leave terminated threads alone. */
  predicate Allowed(s: State, events: seq<Event>)
    requires Wf(s)
    decreases |events|
  {
    events == []
    || ((events[0].SetState? && events[0].thread < |s.threads| ==> s.threads[events[0].thread].state != Terminated)
        && Allowed(Next(s, events[0]), events[1..]))
  }

  /** The frame with which the timer last switched away from t in the run, or the one t had. */
  function LeftWith(s: State, events: seq<Event>, t: nat): nat
    requires Wf(s) && t < |s.threads|
    decreases |events|
  {
    if events == [] then s.threads[t].regs
    else
      var n := |events| - 1;
      var before := After(s, events[..n]);
      var e := events[n];
      if e.TimerTick? && before.current == t && Next(before, e).current != t then e.regs
      else LeftWith(s, events[..n], t)
  }

  lemma {:induction false} AfterLast(s: State, events: seq<Event>)
    requires Wf(s) && events != []
    ensures After(s, events) == Next(After(s, events[..|events| - 1]), events[|events| - 1])
    decreases |events|
  {
    hide Next;
    var n := |events| - 1;
    if n == 0 {
      assert events[..0] == [] && events[1..] == [];
    } else {
      AfterLast(NextState(s, events[0]), events[1..]);
      assert events[1..][..n - 1] == events[..n][1..];
      assert events[..n][0] == events[0];
    }
  }

  function NextState(s: State, e: Event): (r: State)
    requires Wf(s)
    ensures r == Next(s, e) && Wf(r) && |r.threads| == |s.threads|
  {
    Next(s, e)
  }

  lemma {:induction false} AllowedFront(s: State, events: seq<Event>, n: nat)
    requires Wf(s) && Allowed(s, events) && n <= |events|
    ensures Allowed(s, events[..n])
    ensures n < |events| && events[n].SetState? && events[n].thread < |s.threads| ==>
              After(s, events[..n]).threads[events[n].thread].state != Terminated
    decreases |events|
  {
    hide Next;
    if n > 0 {
      AllowedFront(NextState(s, events[0]), events[1..], n - 1);
      assert events[1..][..n - 1] == events[..n][1..];
      assert events[..n][0] == events[0];
    }
  }

  /** What an event does to a saved frame: only a thread that the timer may leave gets a new one. */
  lemma FrameStep(s: State, e: Event, t: nat)
    requires Wf(s) && t < |s.threads|
    requires e.SetState? && e.thread == t ==> s.threads[t].state != Terminated
    ensures var s' := Next(s, e);
            && Wf(s') && |s'.threads| == |s.threads|
            && (s.current != t ==> s'.threads[t].regs == s.threads[t].regs)
            && (s.current == t && s'.current != t && e.TimerTick? ==> s'.threads[t].regs == e.regs)
            && (s.current == t && s'.current != t && !e.TimerTick? ==> s'.threads[t].state == Terminated)
            && (s.threads[t].state == Terminated ==> s'.threads[t].state == Terminated)
  {
    hide PickFrom;
    match e
    case TimerTick(regs) =>
    case ExitThread =>
    case SetState(i, st) =>
  }

  /** Whatever happens, a thread that is not running and has not terminated has the frame saved
      with which it was last left. */
  lemma {:induction false} SavedFrames(s: State, events: seq<Event>, t: nat)
    requires Wf(s) && Allowed(s, events) && t < |s.threads|
    ensures var r := After(s, events);
            r.current != t && r.threads[t].state != Terminated ==> r.threads[t].regs == LeftWith(s, events, t)
    decreases |events|
  {
    hide Next;
    if events != [] {
      var n := |events| - 1;
      AfterLast(s, events);
      AllowedFront(s, events, n);
      SavedFrames(s, events[..n], t);
      FrameStep(After(s, events[..n]), events[n], t);
    }
  }

  /** After any run, a tick that switches returns the frame with which the thread it chooses was
      last left; one that does not switch returns the interrupted thread's own. */
  lemma TickResumes(s: State, events: seq<Event>, regs: nat)
    requires Wf(s) && Allowed(s, events)
    ensures var r := After(s, events);
            var (r', frame) := Tick(r, regs);
            && -1 <= r'.current < |s.threads|
            && frame == if r'.current == r.current then regs else LeftWith(s, events, r'.current)
  {
    hide LeftWith, After, Allowed, PickFrom;
    var r := After(s, events);
    var r' := Tick(r, regs).0;
    if r'.current != r.current {
      SwitchFrame(r, regs);
      SavedFrames(s, events, r'.current);
    } else {
      StayFrame(r, regs);
    }
  }

  lemma SwitchFrame(s: State, regs: nat)
    requires Wf(s) && Tick(s, regs).0.current != s.current
    ensures var next := Tick(s, regs).0.current;
            && 0 <= next < |s.threads| && Tick(s, regs).1 == s.threads[next].regs && s.threads[next].state != Terminated
  {
    hide PickFrom, TurnOver;
    var worked := s.(threads := s.threads[s.current := Worked(s.threads[s.current])]);
    var saved := worked.threads[s.current := worked.threads[s.current].(regs := regs)];
    PickStates(worked.(threads := saved));
  }

  lemma StayFrame(s: State, regs: nat)
    requires Wf(s) && Tick(s, regs).0.current == s.current
    ensures Tick(s, regs).1 == regs
  {
    hide PickFrom;
  }

  /** A thread interrupted with frame f and switched away from keeps f as long as others run. */
  lemma {:induction false} KeepsFrame(s: State, f: nat, others: seq<Event>, t: nat)
    requires Wf(s) && s.current == t && Tick(s, f).0.current != t
    requires forall n :: 0 <= n <= |others| ==> After(NextState(s, TimerTick(f)), others[..n]).current != t
    ensures LeftWith(s, [TimerTick(f)] + others, t) == f
    decreases |others|
  {
    hide Tick;
    var events := [TimerTick(f)] + others;
    if others == [] {
      assert events[..0] == [];
    } else {
      var n := |others| - 1;
      assert events[..n + 1] == [TimerTick(f)] + others[..n];
      assert forall k :: 0 <= k <= n ==> others[..n][..k] == others[..k];
      KeepsFrame(s, f, others[..n], t);
      assert ([TimerTick(f)] + others[..n])[1..] == others[..n];
      assert After(s, events[..n + 1]) == After(NextState(s, TimerTick(f)), others[..n]);
    }
  }

  /** exit_current terminates the running thread alone and restores the frame with which the thread
      it chooses was last left. */
  lemma ExitResumes(s: State, events: seq<Event>)
    requires Wf(s) && Allowed(s, events)
    ensures var r := After(s, events);
            var r' := Exit(r);
            && |r'.threads| == |s.threads| && -1 <= r'.current < |s.threads|
            && ExitFrame(r) == (if r'.current < 0 then None else Some(LeftWith(s, events, r'.current)))
            && (forall j :: 0 <= j < |s.threads| ==>
                  r'.threads[j] == if j == r.current then r.threads[j].(state := Terminated) else r.threads[j])
  {
    hide LeftWith, After, Allowed, PickFrom;
    var r := After(s, events);
    var r' := Exit(r);
    PickStates(r'.(current := r.current));
    if r'.current >= 0 {
      SavedFrames(s, events, r'.current);
    }
  }
}
