/** The event ring: the controller produces, software drains. */
module EventRing {
  import opened Machine

  datatype Trb = Trb(event: int, cycle: bool)

  /** sizeof(xhci_trb_t), and the event-handler-busy bit that is written back to clear it. */
  const TRB_SIZE: nat := 16
  const EHB: nat := 8

  /** The slot and the expected cycle bit j slots further on, at most one lap ahead. */
  function SlotAt(n: nat, dequeue: nat, j: nat): int {
    if dequeue + j < n then dequeue + j else dequeue + j - n
  }

  predicate CycleAt(n: nat, dequeue: nat, rcs: bool, j: nat) {
    if dequeue + j < n then rcs else !rcs
  }

  /** The first k slots from the dequeue pointer on hold events not yet seen. */
  predicate Unseen(slots: seq<Trb>, dequeue: nat, rcs: bool, k: nat)
    requires dequeue < |slots| && k <= |slots|
  {
    forall j :: 0 <= j < k ==> slots[SlotAt(|slots|, dequeue, j)].cycle == CycleAt(|slots|, dequeue, rcs, j)
  }

  class EventRing {
    const trbs: array<Trb>
    const physicalBase: nat
    var dequeuePtr: nat
    var rcsBit: bool
    /** The interrupter's event ring dequeue pointer register. */
    var erdp: nat

    /** The segment is aligned, as alloc_xhci_memory was asked to. */
    ghost predicate Valid()
      reads this
    {
      dequeuePtr < trbs.Length && physicalBase % 16 == 0
    }

    constructor (maxTrbs: nat, physicalBase: nat)
      requires maxTrbs > 0 && physicalBase % 16 == 0
      ensures Valid() && fresh(trbs) && trbs.Length == maxTrbs && this.physicalBase == physicalBase
      ensures forall i :: 0 <= i < maxTrbs ==> trbs[i] == Trb(0, false)
      ensures dequeuePtr == 0 && rcsBit && erdp == physicalBase
    {
      trbs := new Trb[maxTrbs](_ => Trb(0, false));
      this.physicalBase := physicalBase;
      rcsBit := true;
      dequeuePtr := 0;
      erdp := physicalBase;
    }

    method HasUnprocessedEvents() returns (b: bool)
      requires Valid()
      ensures b == (trbs[dequeuePtr].cycle == rcsBit)
    {
      b := trbs[dequeuePtr].cycle == rcsBit;
    }

    /** _dequeue_trb: the slot, or nothing when its TRB has been seen. */
    method DequeueTrb() returns (trb: Option<nat>)
      requires Valid()
      modifies this`dequeuePtr, this`rcsBit
      ensures Valid()
      ensures trb == if trbs[old(dequeuePtr)].cycle == old(rcsBit) then Some(old(dequeuePtr)) else None
      ensures dequeuePtr == if trb.None? then old(dequeuePtr) else SlotAt(trbs.Length, old(dequeuePtr), 1)
      ensures rcsBit == if trb.None? then old(rcsBit) else CycleAt(trbs.Length, old(dequeuePtr), old(rcsBit), 1)
    {
      if trbs[dequeuePtr].cycle != rcsBit {
        return None;
      }
      trb := Some(dequeuePtr);
      dequeuePtr := dequeuePtr + 1;
      if dequeuePtr == trbs.Length {
        dequeuePtr := 0;
        rcsBit := !rcsBit;
      }
    }

    /** dequeue_events: whatever the ring holds it stops within one lap, having taken the
        longest run of unseen slots in order; ERDP then holds the address of the next slot, with
        the busy bit (bit 3) to be cleared. */
    method DequeueEvents() returns (taken: seq<nat>)
      requires Valid()
      modifies this`dequeuePtr, this`rcsBit, this`erdp
      ensures Valid() && |taken| <= trbs.Length
      ensures Unseen(trbs[..], old(dequeuePtr), old(rcsBit), |taken|)
      ensures forall j :: 0 <= j < |taken| ==> taken[j] == SlotAt(trbs.Length, old(dequeuePtr), j)
      ensures dequeuePtr == SlotAt(trbs.Length, old(dequeuePtr), |taken|)
      ensures rcsBit == CycleAt(trbs.Length, old(dequeuePtr), old(rcsBit), |taken|)
      ensures trbs[dequeuePtr].cycle != rcsBit
      ensures erdp == physicalBase + dequeuePtr * 16 + 8
    {
      taken := [];
      var more := HasUnprocessedEvents();
      while more
        invariant Valid() && |taken| <= trbs.Length
        invariant Unseen(trbs[..], old(dequeuePtr), old(rcsBit), |taken|)
        invariant forall j :: 0 <= j < |taken| ==> taken[j] == SlotAt(trbs.Length, old(dequeuePtr), j)
        invariant dequeuePtr == SlotAt(trbs.Length, old(dequeuePtr), |taken|)
        invariant rcsBit == CycleAt(trbs.Length, old(dequeuePtr), old(rcsBit), |taken|)
        invariant more == (trbs[dequeuePtr].cycle == rcsBit)
        decreases trbs.Length - |taken|
      {
        assert SlotAt(trbs.Length, old(dequeuePtr), 0) == old(dequeuePtr);
        var trb := DequeueTrb();
        if trb == None {
          break;
        }
        taken := taken + [trb.value];
        more := HasUnprocessedEvents();
      }
      erdp := physicalBase + dequeuePtr * TRB_SIZE;
      BusyBitClear(physicalBase, dequeuePtr);
      erdp := if erdp / EHB % 2 == 0 then erdp + EHB else erdp;
    }
  }

  /** Slot addresses have the busy bit clear, so setting it adds it. */
  lemma BusyBitClear(base: nat, slot: nat)
    requires base % TRB_SIZE == 0
    ensures (base + slot * TRB_SIZE) / EHB % 2 == 0
  {
    assert base + slot * TRB_SIZE == (base / TRB_SIZE + slot) * 2 * EHB;
  }

  // ----- both parties -----

  /** Shared slots; the controller's enqueue pointer and cycle state; software's dequeue
      pointer and cycle state, and the slot ERDP names. `held` counts slots taken since ERDP was
      last written. History: the events produced, those still waiting, the slots handed over to
      the caller of dequeue_events, and what the caller has read from them so far. */
  datatype System = System(slots: seq<Trb>, enqueue: nat, pcs: bool, dequeue: nat, rcs: bool, erdp: nat,
                           held: nat, produced: seq<int>, pending: seq<int>, handed: seq<nat>, read: seq<int>)

  /** Software takes a slot's address without reading the event; the caller reads it later. */
  datatype Step = Produce(event: int) | Take | Release | Read

  /** The controller never passes ERDP: its room is what software has released. */
  predicate Enabled(s: System, step: Step)
    requires s.dequeue < |s.slots|
  {
    match step
    case Produce(_) => s.held + |s.pending| < |s.slots|
    case Take => s.slots[s.dequeue].cycle == s.rcs
    case Release => true
    case Read => |s.read| < |s.handed| && s.handed[|s.read|] < |s.slots|
  }

  function Wrap(i: nat, n: nat): nat {
    if i + 1 == n then 0 else i + 1
  }

  function Next(s: System, step: Step): System
    requires s.dequeue < |s.slots| && s.enqueue < |s.slots| && Enabled(s, step)
  {
    var n := |s.slots|;
    match step
    case Produce(e) =>
      s.(slots := s.slots[s.enqueue := Trb(e, s.pcs)], enqueue := Wrap(s.enqueue, n),
         pcs := if s.enqueue + 1 == n then !s.pcs else s.pcs,
         produced := s.produced + [e], pending := s.pending + [e])
    case Take =>
      s.(dequeue := Wrap(s.dequeue, n), rcs := if s.dequeue + 1 == n then !s.rcs else s.rcs, held := s.held + 1,
         handed := s.handed + [s.dequeue],
         pending := if s.pending == [] then [] else s.pending[1..])
    case Release =>
      s.(erdp := s.dequeue, held := 0)
    case Read =>
      s.(read := s.read + [s.slots[s.handed[|s.read|]].event])
  }

  function Events(ts: seq<Trb>): (r: seq<int>)
    ensures |r| == |ts| && forall i :: 0 <= i < |r| ==> r[i] == ts[i].event
  {
    seq(|ts|, i requires 0 <= i < |ts| => ts[i].event)
  }

  predicate SameLap(s: System)
    requires s.enqueue < |s.slots| && s.dequeue < |s.slots|
  {
    s.rcs == s.pcs && s.dequeue <= s.enqueue && s.pending == Events(s.slots[s.dequeue..s.enqueue])
  }

  predicate Ahead(s: System)
    requires s.enqueue < |s.slots| && s.dequeue < |s.slots|
  {
    s.rcs != s.pcs && s.enqueue <= s.dequeue && s.pending == Events(s.slots[s.dequeue..]) + Events(s.slots[..s.enqueue])
  }

  predicate Pointers(s: System) {
    && s.enqueue < |s.slots| && s.dequeue < |s.slots| && s.erdp < |s.slots|
    && (forall j :: 0 <= j < s.enqueue ==> s.slots[j].cycle == s.pcs)
    && (forall j :: s.enqueue <= j < |s.slots| ==> s.slots[j].cycle != s.pcs)
    && (SameLap(s) || Ahead(s))
    && s.held + |s.pending| <= |s.slots|
    && s.dequeue == (if s.erdp + s.held < |s.slots| then s.erdp + s.held else s.erdp + s.held - |s.slots|)
  }

  /** The slot of the j-th event: j modulo n, without division. */
  function SlotOf(j: nat, n: nat): (r: nat)
    requires n > 0
    ensures r < n
  {
    if j < n then j else SlotOf(j - n, n)
  }

  /** The j-th slot handed over is the j-th event's, and the slots hold the last n events. */
  predicate Numbers(s: System) {
    && |s.slots| > 0 && |s.produced| == |s.handed| + |s.pending| && |s.read| <= |s.handed|
    && s.pending == s.produced[|s.handed|..]
    && s.enqueue == SlotOf(|s.produced|, |s.slots|) && s.dequeue == SlotOf(|s.handed|, |s.slots|)
    && (forall j: nat :: j < |s.handed| ==> s.handed[j] == SlotOf(j, |s.slots|))
    && (forall i: nat :: i < |s.produced| <= i + |s.slots| ==> s.slots[SlotOf(i, |s.slots|)].event == s.produced[i])
  }

  predicate Inv(s: System) {
    Pointers(s) && Numbers(s)
  }

  function Initial(n: nat): System
    requires n > 0
  {
    System(seq(n, _ => Trb(0, false)), 0, true, 0, true, 0, 0, [], [], [], [])
  }

  lemma EventsHead(ts: seq<Trb>, a: nat, b: nat)
    requires a < b <= |ts|
    ensures Events(ts[a..b]) == [ts[a].event] + Events(ts[a + 1..b])
  {
    assert ts[a..b] == [ts[a]] + ts[a + 1..b];
  }

  lemma EventsPut(ts: seq<Trb>, a: nat, b: nat, t: Trb)
    requires a <= b < |ts|
    ensures Events(ts[b := t][a..b + 1]) == Events(ts[a..b]) + [t.event]
  {
    assert ts[b := t][a..b + 1] == ts[a..b] + [t];
  }

  lemma NoEvents(ts: seq<Trb>)
    requires ts == []
    ensures Events(ts) == []
  {
  }

  // ----- the slots of the events -----

  lemma {:induction false} SlotNext(j: nat, n: nat)
    requires n > 0
    ensures SlotOf(j + 1, n) == Wrap(SlotOf(j, n), n)
  {
    if j >= n {
      SlotNext(j - n, n);
    }
  }

  lemma SlotAgain(j: nat, n: nat)
    requires n > 0
    ensures SlotOf(j + n, n) == SlotOf(j, n)
  {
  }

  /** Within one lap no slot comes twice. */
  lemma {:induction false} SlotsDiffer(i: nat, j: nat, n: nat)
    requires i < j < i + n
    ensures SlotOf(i, n) != SlotOf(j, n)
  {
    if i >= n {
      SlotsDiffer(i - n, j - n, n);
    } else if j >= n {
      assert SlotOf(j, n) == j - n;
    }
  }

  // ----- every step keeps the invariant -----

  lemma ProducePointers(s: System, e: int)
    requires Pointers(s) && Enabled(s, Produce(e))
    ensures Pointers(Next(s, Produce(e)))
  {
    hide SameLap, Ahead, Events;
    if SameLap(s) {
      ProduceSame(s, e);
    } else {
      ProduceAhead(s, e);
    }
  }

  lemma ProduceSame(s: System, e: int)
    requires s.enqueue < |s.slots| && s.dequeue < |s.slots| && SameLap(s) && Enabled(s, Produce(e))
    ensures var t := Next(s, Produce(e));
            t.enqueue < |t.slots| && t.dequeue < |t.slots| && (SameLap(t) || Ahead(t))
  {
    hide Events;
    var n := |s.slots|;
    var t := Next(s, Produce(e));
    var trb := Trb(e, s.pcs);
    EventsPut(s.slots, s.dequeue, s.enqueue, trb);
    if s.enqueue + 1 == n {
      assert t.slots[s.dequeue..] == s.slots[s.enqueue := trb][s.dequeue..s.enqueue + 1];
      NoEvents(t.slots[..0]);
      assert Ahead(t);
    } else {
      assert SameLap(t);
    }
  }

  lemma ProduceAhead(s: System, e: int)
    requires s.enqueue < |s.slots| && s.dequeue < |s.slots| && Ahead(s) && Enabled(s, Produce(e))
    ensures var t := Next(s, Produce(e));
            t.enqueue < |t.slots| && t.dequeue < |t.slots| && Ahead(t)
  {
    AheadRoom(s);
    hide Events;
    var t := Next(s, Produce(e));
    var trb := Trb(e, s.pcs);
    EventsPut(s.slots, 0, s.enqueue, trb);
    assert s.slots[..s.enqueue] == s.slots[0..s.enqueue];
    assert t.slots[..s.enqueue + 1] == s.slots[s.enqueue := trb][0..s.enqueue + 1];
    assert t.slots[s.dequeue..] == s.slots[s.dequeue..];
  }

  lemma AheadRoom(s: System)
    requires s.enqueue < |s.slots| && s.dequeue < |s.slots| && Ahead(s) && |s.pending| < |s.slots|
    ensures s.enqueue < s.dequeue
  {
  }

  /** A new event overwrites the one produced a lap before. */
  lemma ProduceNumbers(s: System, e: int)
    requires Pointers(s) && Numbers(s) && Enabled(s, Produce(e))
    ensures Numbers(Next(s, Produce(e)))
  {
    hide Pointers, SlotOf;
    EnqueueInside(s);
    var n := |s.slots|;
    var t := Next(s, Produce(e));
    SlotNext(|s.produced|, n);
    forall i: nat | i < |t.produced| <= i + n
      ensures t.slots[SlotOf(i, n)].event == t.produced[i]
    {
      if i < |s.produced| {
        SlotsDiffer(i, |s.produced|, n);
      }
    }
  }

  lemma EnqueueInside(s: System)
    requires Pointers(s)
    ensures s.enqueue < |s.slots| && s.dequeue < |s.slots| && s.erdp < |s.slots| && s.held + |s.pending| <= |s.slots|
  {
  }

  /** The slot taken holds the oldest waiting event. */
  lemma TakePointers(s: System)
    requires Pointers(s) && Enabled(s, Take)
    ensures Pointers(Next(s, Take))
    ensures s.pending != [] && Next(s, Take).pending == s.pending[1..] && s.slots[s.dequeue].event == s.pending[0]
  {
    hide Events;
    if SameLap(s) {
      hide Ahead;
      EventsHead(s.slots, s.dequeue, s.enqueue);
      HeadMoves(s.pending, [s.slots[s.dequeue].event], Events(s.slots[s.dequeue + 1..s.enqueue]));
      assert SameLap(Next(s, Take));
    } else {
      TakeAhead(s);
    }
  }

  lemma ToTheEnd(ts: seq<Trb>, a: nat)
    requires a <= |ts|
    ensures ts[a..] == ts[a..|ts|]
  {
  }

  lemma TakeAhead(s: System)
    requires s.enqueue < |s.slots| && s.dequeue < |s.slots| && Ahead(s) && Enabled(s, Take)
    ensures var t := Next(s, Take);
            && t.dequeue < |s.slots| && (SameLap(t) || Ahead(t))
            && s.pending != [] && t.pending == s.pending[1..] && s.slots[s.dequeue].event == s.pending[0]
  {
    hide Events;
    var n := |s.slots|;
    var t := Next(s, Take);
    var rest := Events(s.slots[s.dequeue + 1..n]) + Events(s.slots[..s.enqueue]);
    ToTheEnd(s.slots, s.dequeue);
    EventsHead(s.slots, s.dequeue, n);
    HeadMoves(s.pending, [s.slots[s.dequeue].event], rest);
    if s.dequeue + 1 == n {
      NoEvents(s.slots[n..n]);
      assert s.slots[0..s.enqueue] == s.slots[..s.enqueue];
      assert SameLap(t);
    } else {
      ToTheEnd(s.slots, s.dequeue + 1);
      assert Ahead(t);
    }
  }

  lemma HeadMoves(pending: seq<int>, head: seq<int>, rest: seq<int>)
    requires |head| == 1 && pending == head + rest
    ensures pending[1..] == rest && pending[0] == head[0]
  {
  }

  lemma TakeKeeps(s: System)
    requires Inv(s) && Enabled(s, Take)
    ensures Inv(Next(s, Take))
    ensures Next(s, Take).slots == s.slots
    ensures s.pending != [] && Next(s, Take).pending == s.pending[1..] && s.slots[s.dequeue].event == s.pending[0]
  {
    hide Pointers, SlotOf;
    EnqueueInside(s);
    TakePointers(s);
    SlotNext(|s.handed|, |s.slots|);
  }

  lemma StepKeeps(s: System, step: Step)
    requires s.dequeue < |s.slots| && Inv(s) && Enabled(s, step)
    ensures Inv(Next(s, step))
  {
    match step {
      case Produce(e) =>
        hide Pointers, Numbers;
        EnqueueInside(s);
        ProducePointers(s, e);
        ProduceNumbers(s, e);
      case Take =>
        hide Inv, Pointers, Numbers;
        TakeKeeps(s);
      case Release =>
        hide SlotOf, Events;
      case Read =>
        hide SlotOf, Events;
    }
  }

  predicate Possible(s: System, steps: seq<Step>)
    decreases |steps|
  {
    && s.dequeue < |s.slots| && s.enqueue < |s.slots|
    && (steps == [] || (Enabled(s, steps[0]) && Possible(Next(s, steps[0]), steps[1..])))
  }

  function Run(s: System, steps: seq<Step>): System
    requires Possible(s, steps)
    decreases |steps|
  {
    if steps == [] then s else Run(Next(s, steps[0]), steps[1..])
  }

  lemma {:induction false} RunKeeps(s: System, steps: seq<Step>)
    requires Inv(s) && Possible(s, steps)
    ensures Inv(Run(s, steps)) && |Run(s, steps).slots| == |s.slots|
    decreases |steps|
  {
    hide Inv, Next, Enabled;
    if steps != [] {
      StepKeeps(s, steps[0]);
      SameSize(s, steps[0]);
      RunKeeps(Next(s, steps[0]), steps[1..]);
    }
  }

  lemma SameSize(s: System, step: Step)
    requires s.dequeue < |s.slots| && s.enqueue < |s.slots| && Enabled(s, step)
    ensures |Next(s, step).slots| == |s.slots|
  {
  }

  lemma InitialInv(n: nat)
    requires n > 0
    ensures Inv(Initial(n))
  {
  }

  /** Over every interleaving the slots are handed over once each and in order, the j-th
      event's slot as the j-th; the cycle test succeeds exactly when an event is waiting; no
      waiting event is overwritten; and right after a release ERDP names the next slot. */
  lemma ExactlyOnce(n: nat, steps: seq<Step>)
    requires n > 0 && Possible(Initial(n), steps)
    ensures var s := Run(Initial(n), steps);
            && |s.slots| == n && |s.handed| <= |s.produced| && s.pending == s.produced[|s.handed|..]
            && (forall j: nat :: j < |s.handed| ==> s.handed[j] == SlotOf(j, n))
            && (forall j: nat :: j < |s.pending| ==> s.slots[SlotOf(|s.handed| + j, n)].event == s.pending[j])
            && s.dequeue < n && (s.slots[s.dequeue].cycle == s.rcs <==> s.pending != [])
            && |s.pending| <= n && (s.held == 0 ==> s.erdp == s.dequeue)
  {
    hide Possible, Run, SlotOf;
    InitialInv(n);
    RunKeeps(Initial(n), steps);
    var s := Run(Initial(n), steps);
    forall j: nat | j < |s.pending|
      ensures s.slots[SlotOf(|s.handed| + j, n)].event == s.pending[j]
    {
      assert s.pending[j] == s.produced[|s.handed| + j];
    }
  }

  // ----- reading what was handed over -----

  predicate AllDifferent(v: seq<int>) {
    forall i, j :: 0 <= i < j < |v| ==> v[i] != v[j]
  }

  /** The j-th slot handed over still holds the j-th event exactly while fewer than n events
      have been produced after it; then it holds a later one. */
  lemma ReadableExactly(n: nat, steps: seq<Step>, j: nat)
    requires n > 0 && Possible(Initial(n), steps) && j < |Run(Initial(n), steps).handed|
    ensures var s := Run(Initial(n), steps);
            && |s.slots| == n && s.handed[j] < n && j < |s.produced|
            && (|s.produced| <= j + n ==> s.slots[s.handed[j]].event == s.produced[j])
            && (AllDifferent(s.produced) ==> (s.slots[s.handed[j]].event == s.produced[j] <==> |s.produced| <= j + n))
  {
    hide Possible, Run, Pointers, SlotOf;
    InitialInv(n);
    RunKeeps(Initial(n), steps);
    HeldEvent(Run(Initial(n), steps), j);
  }

  lemma HeldEvent(s: System, j: nat)
    requires Numbers(s) && j < |s.handed|
    ensures var n := |s.slots|;
            && s.handed[j] < n && j < |s.produced|
            && (|s.produced| <= j + n ==> s.slots[s.handed[j]].event == s.produced[j])
            && (AllDifferent(s.produced) ==> (s.slots[s.handed[j]].event == s.produced[j] <==> |s.produced| <= j + n))
  {
    hide SlotOf;
    var n := |s.slots|;
    if |s.produced| > j + n {
      var i := LastInSlot(j, n, |s.produced|);
      assert s.slots[SlotOf(i, n)].event == s.produced[i];
    }
  }

  /** The last of the first m events that goes into the slot of event j. */
  lemma {:induction false} LastInSlot(j: nat, n: nat, m: nat) returns (i: nat)
    requires n > 0 && j < m
    ensures j <= i < m <= i + n && SlotOf(i, n) == SlotOf(j, n)
    ensures m > j + n ==> i > j
    decreases m - j
  {
    hide SlotOf;
    if m <= j + n {
      i := j;
    } else {
      SlotAgain(j, n);
      i := LastInSlot(j + n, n, m);
    }
  }

  /** After a complete drain of k slots, and until the next one, all k events can be read exactly
      while at most n - k events have been produced since. */
  lemma DrainReadable(drained: System, since: seq<Step>, k: nat)
    requires Inv(drained) && drained.pending == [] && 0 < k <= |drained.handed|
    requires Possible(drained, since) && Take !in since && AllDifferent(Run(drained, since).produced)
    ensures var s := Run(drained, since);
            && |s.slots| == |drained.slots| && s.handed == drained.handed
            && (forall j: nat :: j < |s.handed| ==> s.handed[j] < |s.slots| && j < |s.produced|)
            && ((forall j: nat :: |s.handed| - k <= j < |s.handed| ==> s.slots[s.handed[j]].event == s.produced[j])
                <==> |s.produced| - |drained.produced| <= |s.slots| - k)
  {
    hide Possible, Run, Pointers, SlotOf, AllDifferent;
    RunKeeps(drained, since);
    NothingTaken(drained, since);
    var s := Run(drained, since);
    forall j: nat | j < |s.handed|
      ensures s.handed[j] < |s.slots| && j < |s.produced|
      ensures s.slots[s.handed[j]].event == s.produced[j] <==> |s.produced| <= j + |s.slots|
    {
      HeldEvent(s, j);
    }
    var oldest: nat := |s.handed| - k;
    assert s.slots[s.handed[oldest]].event == s.produced[oldest] <==> |s.produced| <= oldest + |s.slots|;
  }

  lemma {:induction false} NothingTaken(s: System, steps: seq<Step>)
    requires Possible(s, steps) && Take !in steps
    ensures Run(s, steps).handed == s.handed
    decreases |steps|
  {
    hide Enabled;
    if steps != [] {
      NothingTaken(Next(s, steps[0]), steps[1..]);
    }
  }

  /** A slot that has not been released is always still readable. */
  lemma HeldReadable(s: System, j: nat)
    requires Inv(s) && |s.handed| - s.held <= j < |s.handed|
    ensures s.handed[j] < |s.slots| && s.slots[s.handed[j]].event == s.produced[j]
  {
    hide SlotOf, Events;
    HeldEvent(s, j);
  }

  /** Every read comes before n more events have been produced after the one it is for. */
  predicate Timely(s: System, steps: seq<Step>)
    requires Possible(s, steps)
    decreases |steps|
  {
    steps == []
    || ((steps[0] == Read ==> |s.produced| <= |s.read| + |s.slots|) && Timely(Next(s, steps[0]), steps[1..]))
  }

  /** With timely reads the caller reads every event once and in order. */
  lemma ReadsInOrder(n: nat, steps: seq<Step>)
    requires n > 0 && Possible(Initial(n), steps) && Timely(Initial(n), steps)
    ensures Run(Initial(n), steps).read <= Run(Initial(n), steps).produced
  {
    InitialInv(n);
    TimelyReads(Initial(n), steps);
  }

  lemma {:induction false} TimelyReads(s: System, steps: seq<Step>)
    requires Inv(s) && s.read <= s.produced && Possible(s, steps) && Timely(s, steps)
    ensures Run(s, steps).read <= Run(s, steps).produced
    decreases |steps|
  {
    hide Inv, Enabled, Next;
    if steps != [] {
      StepKeeps(s, steps[0]);
      TimelyStep(s, steps[0]);
      TimelyReads(Next(s, steps[0]), steps[1..]);
    }
  }

  lemma TimelyStep(s: System, step: Step)
    requires Inv(s) && s.read <= s.produced && s.dequeue < |s.slots| && Enabled(s, step)
    requires step == Read ==> |s.produced| <= |s.read| + |s.slots|
    ensures Next(s, step).read <= Next(s, step).produced
  {
    hide Pointers, SlotOf;
    if step == Read {
      HeldEvent(s, |s.read|);
    }
    EnqueueInside(s);
  }

  /** A step from one system to the next. */
  predicate Leads(s: System, step: Step, t: System) {
    s.dequeue < |s.slots| && s.enqueue < |s.slots| && Enabled(s, step) && Next(s, step) == t
  }

  lemma {:induction false} RunThrough(states: seq<System>, steps: seq<Step>)
    requires |states| == |steps| + 1 && states[|steps|].dequeue < |states[|steps|].slots|
    requires states[|steps|].enqueue < |states[|steps|].slots|
    requires forall i: nat :: i < |steps| ==> Leads(states[i], steps[i], states[i + 1])
    ensures Possible(states[0], steps) && Run(states[0], steps) == states[|steps|]
    decreases |steps|
  {
    hide Enabled, Next;
    if steps != [] {
      assert Leads(states[0], steps[0], states[0 + 1]);
      forall i: nat | i < |steps| - 1
        ensures Leads(states[1..][i], steps[1..][i], states[1..][i + 1])
      {
        assert Leads(states[i + 1], steps[i + 1], states[i + 1 + 1]);
      }
      RunThrough(states[1..], steps[1..]);
    }
  }

  /** The systems of a run on one slot: the first event's slot is released unread and filled again. */
  function LateStates(a: int, b: int): seq<System> {
    [System([Trb(0, false)], 0, true, 0, true, 0, 0, [], [], [], []),
     System([Trb(a, true)], 0, false, 0, true, 0, 0, [a], [a], [], []),
     System([Trb(a, true)], 0, false, 0, false, 0, 1, [a], [], [0], []),
     System([Trb(a, true)], 0, false, 0, false, 0, 0, [a], [], [0], []),
     System([Trb(b, false)], 0, true, 0, false, 0, 0, [a, b], [b], [0], []),
     System([Trb(b, false)], 0, true, 0, false, 0, 0, [a, b], [b], [0], [b]),
     System([Trb(b, false)], 0, true, 0, true, 0, 1, [a, b], [], [0, 0], [b]),
     System([Trb(b, false)], 0, true, 0, true, 0, 1, [a, b], [], [0, 0], [b, b])]
  }

  function LateSteps(a: int, b: int): seq<Step> {
    [Produce(a), Take, Release, Produce(b), Read, Take, Read]
  }

  lemma LateLeads(a: int, b: int, i: nat)
    requires i < 7
    ensures Leads(LateStates(a, b)[i], LateSteps(a, b)[i], LateStates(a, b)[i + 1])
  {
    hide Events;
    if i == 0 {
    } else if i == 1 {
    } else if i == 2 {
    } else if i == 3 {
    } else if i == 4 {
    } else if i == 5 {
    }
  }

  /** Late reads lose events: here the caller reads the second event twice and the first never. */
  lemma LateRead(a: int, b: int)
    ensures Possible(Initial(1), LateSteps(a, b))
    ensures Run(Initial(1), LateSteps(a, b)).produced == [a, b] && Run(Initial(1), LateSteps(a, b)).read == [b, b]
  {
    hide Leads, Possible, Run;
    var states := LateStates(a, b);
    assert Initial(1) == states[0] by {
      assert Initial(1).slots == [Trb(0, false)];
    }
    forall i: nat | i < 7
      ensures Leads(states[i], LateSteps(a, b)[i], states[i + 1])
    {
      LateLeads(a, b, i);
    }
    RunThrough(states, LateSteps(a, b));
  }

  // ----- a drain -----

  lemma UnseenTail(s: System, k: nat)
    requires Inv(s) && 0 < k <= |s.slots| && Unseen(s.slots, s.dequeue, s.rcs, k)
    ensures Enabled(s, Take)
    ensures var t := Next(s, Take);
            && Unseen(t.slots, t.dequeue, t.rcs, k - 1)
            && (forall j: nat :: j < k ==> SlotAt(|s.slots|, t.dequeue, j) == SlotAt(|s.slots|, s.dequeue, j + 1))
  {
    hide Inv;
    InSlots(s);
    assert s.slots[SlotAt(|s.slots|, s.dequeue, 0)].cycle == CycleAt(|s.slots|, s.dequeue, s.rcs, 0);
    var t := Next(s, Take);
    forall j | 0 <= j < k - 1
      ensures t.slots[SlotAt(|t.slots|, t.dequeue, j)].cycle == CycleAt(|t.slots|, t.dequeue, t.rcs, j)
    {
      assert s.slots[SlotAt(|s.slots|, s.dequeue, j + 1)].cycle == CycleAt(|s.slots|, s.dequeue, s.rcs, j + 1);
    }
  }

  lemma InSlots(s: System)
    requires Inv(s)
    ensures s.enqueue < |s.slots| && s.dequeue < |s.slots| && s.held + |s.pending| <= |s.slots|
  {
  }

  lemma SlotZero(n: nat, dequeue: nat)
    requires dequeue < n
    ensures SlotAt(n, dequeue, 0) == dequeue
  {
  }

  function Takes(k: nat): seq<Step> {
    if k == 0 then [] else [Take] + Takes(k - 1)
  }

  /** The slots dequeue_events takes from the dequeue pointer on. */
  function SlotsFrom(n: nat, dequeue: nat, k: nat): (v: seq<int>)
    ensures |v| == k && forall j: nat :: j < k ==> v[j] == SlotAt(n, dequeue, j)
  {
    seq(k, j requires 0 <= j < k => SlotAt(n, dequeue, j))
  }

  /** The slots that dequeue_events takes are so many Take steps: it hands over the slots of the
      waiting events from the front, which hold these events until the release. */
  lemma DrainIsTakes(s: System, k: nat)
    requires Inv(s) && k <= |s.slots| && Unseen(s.slots, s.dequeue, s.rcs, k)
    ensures k <= |s.pending| && Possible(s, Takes(k))
    ensures var t := Run(s, Takes(k));
            && t.dequeue == SlotAt(|s.slots|, s.dequeue, k) && t.slots == s.slots
            && t.handed == s.handed + SlotsFrom(|s.slots|, s.dequeue, k)
    ensures forall j: nat :: j < k ==>
              (0 <= SlotAt(|s.slots|, s.dequeue, j) < |s.slots|
               && s.slots[SlotAt(|s.slots|, s.dequeue, j)].event == s.pending[j])
  {
    hide Inv, Unseen, Possible, Run, Takes;
    TakesHand(s, k);
    forall j: nat | j < k
      ensures 0 <= SlotAt(|s.slots|, s.dequeue, j) < |s.slots|
      ensures s.slots[SlotAt(|s.slots|, s.dequeue, j)].event == s.pending[j]
    {
      WaitingSlot(s, j);
    }
  }

  lemma {:induction false} TakesHand(s: System, k: nat)
    requires Inv(s) && k <= |s.slots| && Unseen(s.slots, s.dequeue, s.rcs, k)
    ensures k <= |s.pending| && Possible(s, Takes(k))
    ensures var t := Run(s, Takes(k));
            && t.dequeue == SlotAt(|s.slots|, s.dequeue, k) && t.slots == s.slots
            && t.handed == s.handed + SlotsFrom(|s.slots|, s.dequeue, k)
    decreases k
  {
    hide Inv, Unseen, Next, SlotAt, CycleAt, Enabled, SlotsFrom;
    InSlots(s);
    SlotZero(|s.slots|, s.dequeue);
    if k > 0 {
      UnseenTail(s, k);
      TakeKeeps(s);
      TakeHands(s);
      TakesHand(Next(s, Take), k - 1);
      TakesUnfold(s, k);
      HandedOn(s.handed, |s.slots|, s.dequeue, Next(s, Take).dequeue, k);
    }
  }

  lemma TakesUnfold(s: System, k: nat)
    requires 0 < k && s.dequeue < |s.slots| && s.enqueue < |s.slots| && Enabled(s, Take)
    requires Possible(Next(s, Take), Takes(k - 1))
    ensures Possible(s, Takes(k)) && Run(s, Takes(k)) == Run(Next(s, Take), Takes(k - 1))
  {
    hide Next, Enabled;
    assert Takes(k)[1..] == Takes(k - 1);
  }

  lemma HandedOn(handed: seq<nat>, n: nat, d: nat, d': nat, k: nat)
    requires k > 0 && d < n && (forall j: nat :: j < k ==> SlotAt(n, d', j) == SlotAt(n, d, j + 1))
    ensures handed + [d] + SlotsFrom(n, d', k - 1) == handed + SlotsFrom(n, d, k)
    ensures SlotAt(n, d', k - 1) == SlotAt(n, d, k)
  {
    hide SlotAt, SlotsFrom;
    SlotsShift(n, d, d', k);
    assert SlotAt(n, d', k - 1) == SlotAt(n, d, k - 1 + 1);
  }

  lemma WaitingSlot(s: System, j: nat)
    requires Inv(s) && j < |s.pending|
    ensures 0 <= SlotAt(|s.slots|, s.dequeue, j) < |s.slots|
    ensures s.slots[SlotAt(|s.slots|, s.dequeue, j)].event == s.pending[j]
  {
    hide Pointers, SlotOf, SlotAt;
    InSlots(s);
    SlotAhead(|s.handed|, j, |s.slots|);
    assert s.pending[j] == s.produced[|s.handed| + j];
  }

  lemma {:induction false} SlotAhead(h: nat, j: nat, n: nat)
    requires j < n
    ensures SlotAt(n, SlotOf(h, n), j) == SlotOf(h + j, n)
  {
    if h >= n {
      SlotAhead(h - n, j, n);
      SlotAgain(h - n + j, n);
    }
  }

  lemma TakeHands(s: System)
    requires s.dequeue < |s.slots| && s.enqueue < |s.slots| && Enabled(s, Take)
    ensures Next(s, Take).handed == s.handed + [s.dequeue]
  {
  }

  lemma SlotsShift(n: nat, d: nat, d': nat, k: nat)
    requires k > 0 && d < n && (forall j: nat :: j < k ==> SlotAt(n, d', j) == SlotAt(n, d, j + 1))
    ensures SlotsFrom(n, d, k) == [d] + SlotsFrom(n, d', k - 1)
  {
    hide SlotAt;
    SlotZero(n, d);
    forall j: nat | 0 < j < k
      ensures SlotsFrom(n, d, k)[j] == SlotsFrom(n, d', k - 1)[j - 1]
    {
      assert SlotAt(n, d', j - 1) == SlotAt(n, d, j - 1 + 1);
    }
  }
}
