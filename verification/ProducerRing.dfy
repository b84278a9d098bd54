/** The command and transfer rings: software enqueues, the controller consumes. */
module ProducerRing {

  /** What a TRB says, its cycle bit apart: work for the controller, the link back to the
      first slot, or the zeroes of fresh memory. */
  datatype Body = Blank | Work(request: int) | Link

  datatype Trb = Trb(body: Body, cycle: bool)

  // ----- the ring as a value -----

  datatype Ring = Ring(slots: seq<Trb>, enqueue: nat, rcs: bool) {
    /** Index of the link TRB; the slots before it carry work. */
    function Last(): int {
      |slots| - 1
    }
  }

  /** First store of `enqueue`: the TRB, with the current cycle bit. */
  function Store(r: Ring, body: Body): Ring
    requires r.enqueue < |r.slots|
  {
    Ring(r.slots[r.enqueue := Trb(body, r.rcs)], r.enqueue + 1, r.rcs)
  }

  /** The wrap: the link TRB takes the cycle bit of the lap just ended. */
  function CloseLap(r: Ring): Ring
    requires |r.slots| > 0
  {
    Ring(r.slots[r.Last() := Trb(Link, r.rcs)], 0, !r.rcs)
  }

  /** The constructor and `init`. */
  function NewRing(n: nat): Ring
    requires n >= 2
  {
    Ring(seq(n, i => if i == n - 1 then Trb(Link, true) else Trb(Blank, false)), 0, true)
  }

  class ProducerRing {
    const trbs: array<Trb>
    var enqueuePtr: nat
    var rcsBit: bool

    ghost predicate Valid()
      reads this
    {
      trbs.Length >= 2 && enqueuePtr < trbs.Length - 1
    }

    ghost function Value(): Ring
      reads this, trbs
    {
      Ring(trbs[..], enqueuePtr, rcsBit)
    }

    constructor (maxTrbs: nat)
      requires maxTrbs >= 2
      ensures Valid() && Value() == NewRing(maxTrbs) && fresh(trbs)
    {
      trbs := new Trb[maxTrbs](i => Trb(Blank, false));
      rcsBit := true;
      enqueuePtr := 0;
      new;
      trbs[maxTrbs - 1] := Trb(Link, rcsBit);
      assert trbs[..] == NewRing(maxTrbs).slots;
    }

    method Enqueue(body: Body)
      requires Valid()
      modifies this, trbs
      ensures Valid()
      ensures var stored := Store(old(Value()), body);
              Value() == if stored.enqueue == stored.Last() then CloseLap(stored) else stored
    {
      trbs[enqueuePtr] := Trb(body, rcsBit);
      enqueuePtr := enqueuePtr + 1;
      if enqueuePtr == trbs.Length - 1 {
        trbs[trbs.Length - 1] := Trb(Link, rcsBit);
        enqueuePtr := 0;
        rcsBit := !rcsBit;
      }
    }
  }

  // ----- both parties -----

  /** The shared slots with the controller's dequeue pointer and cycle state, and the
      history: what was enqueued, what is still to be consumed, what was consumed. */
  datatype System = System(ring: Ring, dequeue: nat, ccs: bool,
                           produced: seq<Body>, pending: seq<Body>, consumed: seq<Body>)

  /** The two stores of `enqueue` are separate steps, so the controller may run between them. */
  datatype Step = PutTrb(body: Body) | PutLink | Consume | FollowLink

  /** The controller rests on the link TRB of a lap that the producer has left behind. */
  predicate Resting(s: System) {
    s.dequeue == s.ring.Last() && s.ccs != s.ring.rcs
  }

  predicate Enabled(s: System, step: Step)
    requires |s.ring.slots| >= 2 && s.dequeue < |s.ring.slots|
  {
    match step
    case PutTrb(_) => s.ring.enqueue < s.ring.Last() && |s.pending| < s.ring.Last()
    case PutLink => s.ring.enqueue == s.ring.Last()
    case Consume => s.dequeue < s.ring.Last() && s.ring.slots[s.dequeue].cycle == s.ccs
    case FollowLink => s.dequeue == s.ring.Last() && s.ring.slots[s.dequeue].cycle == s.ccs
  }

  function Next(s: System, step: Step): System
    requires |s.ring.slots| >= 2 && s.dequeue < |s.ring.slots| && Enabled(s, step)
  {
    match step
    case PutTrb(body) =>
      s.(ring := Store(s.ring, body), produced := s.produced + [body], pending := s.pending + [body])
    case PutLink =>
      s.(ring := CloseLap(s.ring))
    case Consume =>
      s.(dequeue := s.dequeue + 1,
         consumed := s.consumed + [s.ring.slots[s.dequeue].body],
         pending := if s.pending == [] then [] else s.pending[1..])
    case FollowLink =>
      s.(dequeue := 0, ccs := !s.ccs)
  }

  function Bodies(ts: seq<Trb>): (r: seq<Body>)
    ensures |r| == |ts| && forall i :: 0 <= i < |r| ==> r[i] == ts[i].body
  {
    seq(|ts|, i requires 0 <= i < |ts| => ts[i].body)
  }

  /** Slots written in this lap carry its cycle bit, the others the opposite. */
  predicate Laps(r: Ring) {
    && (forall j :: 0 <= j < r.enqueue && j < r.Last() ==> r.slots[j].cycle == r.rcs)
    && (forall j :: r.enqueue <= j < r.Last() ==> r.slots[j].cycle != r.rcs)
  }

  /** Controller and producer are in the same lap. */
  predicate SameLap(s: System) {
    && s.ccs == s.ring.rcs && s.dequeue <= s.ring.enqueue < |s.ring.slots|
    && s.pending == Bodies(s.ring.slots[s.dequeue..s.ring.enqueue])
  }

  /** The producer is one lap ahead, and the link leads there. When the producer stands on the
      link as well, the whole ring is outstanding. */
  predicate Ahead(s: System) {
    && s.ccs != s.ring.rcs && s.ring.enqueue <= s.dequeue <= s.ring.Last()
    && s.ring.slots[s.ring.Last()].cycle == s.ccs
    && s.pending == Bodies(s.ring.slots[s.dequeue..s.ring.Last()]) + Bodies(s.ring.slots[..s.ring.enqueue])
  }

  /** The controller followed the first lap's link before the producer rewrote it. */
  predicate Early(s: System) {
    s.ccs != s.ring.rcs && s.ring.enqueue == s.ring.Last() && s.dequeue == 0 && s.pending == []
  }

  /** The link was rewritten under a resting controller: the ring is full, and the controller
      takes the link for one of a lap to come. */
  predicate Lost(s: System) {
    && |s.ring.slots| >= 2 && s.dequeue == s.ring.Last() && s.ccs == s.ring.rcs && s.ring.enqueue == 0
    && s.ring.slots[s.dequeue].cycle != s.ccs && |s.pending| == s.ring.Last()
    && s.produced == s.consumed + s.pending
  }

  predicate Inv(s: System) {
    && |s.ring.slots| >= 2 && s.dequeue < |s.ring.slots|
    && Laps(s.ring)
    && (SameLap(s) || Ahead(s) || Early(s))
    && s.produced == s.consumed + s.pending
  }

  /** The controller starts with the cycle bit that get_cycle_bit reports. */
  function Initial(n: nat): System
    requires n >= 2
  {
    System(NewRing(n), 0, NewRing(n).rcs, [], [], [])
  }

  lemma InitialInv(n: nat)
    requires n >= 2
    ensures Inv(Initial(n))
  {
  }

  lemma BodiesHead(ts: seq<Trb>, a: nat, b: nat)
    requires a < b <= |ts|
    ensures Bodies(ts[a..b]) == [ts[a].body] + Bodies(ts[a + 1..b])
  {
    assert ts[a..b] == [ts[a]] + ts[a + 1..b];
  }

  lemma BodiesPut(ts: seq<Trb>, a: nat, b: nat, t: Trb)
    requires a <= b < |ts|
    ensures Bodies(ts[b := t][a..b + 1]) == Bodies(ts[a..b]) + [t.body]
  {
    assert ts[b := t][a..b + 1] == ts[a..b] + [t];
  }

  lemma PutTrbKeeps(s: System, body: Body)
    requires Inv(s) && Enabled(s, PutTrb(body))
    ensures Inv(Next(s, PutTrb(body)))
  {
    hide Bodies, Ahead, SameLap, Laps;
    PutTrbLaps(s.ring, body);
    if SameLap(s) {
      PutTrbSame(s, body);
    } else {
      PutTrbAhead(s, body);
    }
  }

  lemma PutTrbLaps(r: Ring, body: Body)
    requires Laps(r) && r.enqueue < r.Last()
    ensures Laps(Store(r, body))
  {
  }

  lemma PutTrbSame(s: System, body: Body)
    requires |s.ring.slots| >= 2 && s.dequeue < |s.ring.slots| && SameLap(s) && Enabled(s, PutTrb(body))
    ensures SameLap(Next(s, PutTrb(body)))
  {
    hide Bodies;
    BodiesPut(s.ring.slots, s.dequeue, s.ring.enqueue, Trb(body, s.ring.rcs));
  }

  lemma PutTrbAhead(s: System, body: Body)
    requires |s.ring.slots| >= 2 && s.dequeue < |s.ring.slots| && (Ahead(s) || Early(s)) && Enabled(s, PutTrb(body))
    ensures Ahead(Next(s, PutTrb(body)))
  {
    hide Bodies;
    assert Ahead(s);
    var t := Next(s, PutTrb(body));
    var e := s.ring.enqueue;
    BodiesPut(s.ring.slots, 0, e, Trb(body, s.ring.rcs));
    AheadRoom(s);
    assert s.ring.slots[..e] == s.ring.slots[0..e] && t.ring.slots[..e + 1] == t.ring.slots[0..e + 1];
    assert t.ring.slots[s.dequeue..s.ring.Last()] == s.ring.slots[s.dequeue..s.ring.Last()];
  }

  lemma AheadRoom(s: System)
    requires |s.ring.slots| >= 2 && Ahead(s) && |s.pending| < s.ring.Last()
    ensures s.ring.enqueue < s.dequeue
  {
  }

  /** The second store keeps the order unless the controller rests on the link it rewrites. */
  lemma PutLinkKeeps(s: System)
    requires Inv(s) && Enabled(s, PutLink)
    ensures if Resting(s) then Lost(Next(s, PutLink)) else Inv(Next(s, PutLink))
  {
    var t := Next(s, PutLink);
    if SameLap(s) {
      assert t.ring.slots[s.dequeue..s.ring.Last()] == s.ring.slots[s.dequeue..s.ring.Last()];
      assert t.ring.slots[..0] == [];
      assert t.pending == Bodies(t.ring.slots[t.dequeue..t.ring.Last()]) + Bodies(t.ring.slots[..0]);
      assert Ahead(t);
    } else if Early(s) {
      assert SameLap(t);
    }
  }

  lemma ConsumeKeeps(s: System)
    requires Inv(s) && Enabled(s, Consume)
    ensures Inv(Next(s, Consume))
    ensures s.pending != [] && Next(s, Consume).consumed == s.consumed + [s.pending[0]]
  {
    hide Bodies;
    var t := Next(s, Consume);
    var d := s.dequeue;
    if SameLap(s) {
      BodiesHead(s.ring.slots, d, s.ring.enqueue);
      HeadMoves(s, [s.ring.slots[d].body], Bodies(s.ring.slots[d + 1..s.ring.enqueue]));
      assert SameLap(t);
    } else {
      assert Ahead(s);
      BodiesHead(s.ring.slots, d, s.ring.Last());
      var rest := Bodies(s.ring.slots[d + 1..s.ring.Last()]) + Bodies(s.ring.slots[..s.ring.enqueue]);
      HeadMoves(s, [s.ring.slots[d].body], rest);
      assert Ahead(t);
    }
  }

  lemma HeadMoves(s: System, head: seq<Body>, rest: seq<Body>)
    requires |head| == 1 && s.pending == head + rest && s.produced == s.consumed + s.pending
    ensures s.pending[1..] == rest && s.pending[0] == head[0]
    ensures s.produced == s.consumed + head + rest
  {
  }

  lemma FollowLinkKeeps(s: System)
    requires Inv(s) && Enabled(s, FollowLink)
    ensures Inv(Next(s, FollowLink))
  {
    var t := Next(s, FollowLink);
    if SameLap(s) {
      assert Early(t);
    } else {
      assert Ahead(s);
      assert s.ring.slots[..s.ring.enqueue] == s.ring.slots[0..s.ring.enqueue];
      assert SameLap(t);
    }
  }

  lemma StepKeeps(s: System, step: Step)
    requires Inv(s) && Enabled(s, step)
    ensures if step == PutLink && Resting(s) then Lost(Next(s, step)) else Inv(Next(s, step))
  {
    hide Inv, Lost, Resting, Enabled, Next;
    match step {
      case PutTrb(body) => PutTrbKeeps(s, body);
      case PutLink => PutLinkKeeps(s);
      case Consume => ConsumeKeeps(s);
      case FollowLink => FollowLinkKeeps(s);
    }
  }

  /** Nothing can happen any more. */
  lemma LostIsStuck(s: System, step: Step)
    requires Lost(s)
    ensures !Enabled(s, step)
  {
  }

  predicate Possible(s: System, steps: seq<Step>)
    decreases |steps|
  {
    && |s.ring.slots| >= 2 && s.dequeue < |s.ring.slots|
    && (steps == [] || (Enabled(s, steps[0]) && Possible(Next(s, steps[0]), steps[1..])))
  }

  function Run(s: System, steps: seq<Step>): System
    requires Possible(s, steps)
    decreases |steps|
  {
    if steps == [] then s else Run(Next(s, steps[0]), steps[1..])
  }

  /** The run ends with the store of the link while the controller rests on it. */
  predicate EndsOverResting(s: System, steps: seq<Step>) {
    && steps != [] && steps[|steps| - 1] == PutLink
    && Possible(s, steps[..|steps| - 1]) && Resting(Run(s, steps[..|steps| - 1]))
  }

  lemma {:induction false} RunKeeps(s: System, steps: seq<Step>)
    requires Inv(s) && Possible(s, steps)
    ensures if EndsOverResting(s, steps) then Lost(Run(s, steps)) else Inv(Run(s, steps))
    decreases |steps|
  {
    hide Inv, Lost, Enabled, Next, Resting;
    if |steps| == 1 {
      LastStep(s, steps);
    } else if steps != [] {
      EndsLater(s, steps);
      StepKeeps(s, steps[0]);
      if Lost(Next(s, steps[0])) {
        LostIsStuck(Next(s, steps[0]), steps[1]);
      }
      RunKeeps(Next(s, steps[0]), steps[1..]);
    }
  }

  lemma LastStep(s: System, steps: seq<Step>)
    requires Inv(s) && Possible(s, steps) && |steps| == 1
    ensures if EndsOverResting(s, steps) then Lost(Run(s, steps)) else Inv(Run(s, steps))
  {
    hide Inv, Lost, Enabled, Next, Resting;
    assert steps[..0] == [] && steps[1..] == [];
    StepKeeps(s, steps[0]);
  }

  lemma EndsLater(s: System, steps: seq<Step>)
    requires Possible(s, steps) && |steps| >= 2
    ensures EndsOverResting(s, steps) <==> EndsOverResting(Next(s, steps[0]), steps[1..])
  {
    hide Enabled, Next, Resting;
    assert steps[..|steps| - 1][1..] == steps[1..][..|steps[1..]| - 1];
    assert steps[..|steps| - 1][0] == steps[0];
  }

  /** The controller finds a TRB it may consume, here or behind a link it may follow. */
  predicate FindsWork(s: System)
    requires |s.ring.slots| >= 2 && s.dequeue < |s.ring.slots|
  {
    if s.dequeue < s.ring.Last() then s.ring.slots[s.dequeue].cycle == s.ccs
    else s.ring.slots[s.dequeue].cycle == s.ccs && s.ring.slots[0].cycle != s.ccs
  }

  lemma WorkIsPending(s: System)
    requires Inv(s)
    ensures FindsWork(s) <==> s.pending != []
  {
  }

  /** Over every interleaving of the stores with the controller's steps TRBs are consumed once
      and in order, and what is outstanding is found, exactly unless the run ends with a store of
      the link over a controller that rests on it. */
  lemma Fifo(n: nat, steps: seq<Step>)
    requires n >= 2 && Possible(Initial(n), steps)
    ensures var s := Run(Initial(n), steps);
            && s.produced == s.consumed + s.pending
            && |s.ring.slots| >= 2 && s.dequeue < |s.ring.slots|
            && ((FindsWork(s) <==> s.pending != []) <==> !EndsOverResting(Initial(n), steps))
  {
    hide Possible, Run, EndsOverResting, Enabled, Next;
    InitialInv(n);
    RunKeeps(Initial(n), steps);
    var s := Run(Initial(n), steps);
    if EndsOverResting(Initial(n), steps) {
      LostIsFull(s);
    } else {
      InvSizes(s);
      WorkIsPending(s);
    }
  }

  lemma InvSizes(s: System)
    requires Inv(s)
    ensures |s.ring.slots| >= 2 && s.dequeue < |s.ring.slots| && s.produced == s.consumed + s.pending
  {
  }

  lemma LostIsFull(s: System)
    requires Lost(s)
    ensures !FindsWork(s) && s.pending != []
  {
  }

  /** Storing the link keeps the outstanding work findable exactly when the controller does not
      rest on it; otherwise nothing can happen any more and a full ring is lost. */
  lemma LinkFound(s: System)
    requires Inv(s) && Enabled(s, PutLink)
    ensures var t := Next(s, PutLink);
            && t.pending == s.pending
            && ((FindsWork(t) <==> t.pending != []) <==> !Resting(s))
            && ((forall step :: !Enabled(t, step)) <==> Resting(s))
            && (Resting(s) ==> FindsWork(s) && |s.pending| == s.ring.Last())
  {
    var t := Next(s, PutLink);
    PutLinkKeeps(s);
    if Resting(s) {
      assert Ahead(s);
      forall step
        ensures !Enabled(t, step)
      {
        LostIsStuck(t, step);
      }
    } else {
      WorkIsPending(t);
      assert Enabled(t, Consume) || Enabled(t, FollowLink) || Enabled(t, PutTrb(Blank));
    }
  }

  /** A step from one system to the next. */
  predicate Leads(s: System, step: Step, t: System) {
    |s.ring.slots| >= 2 && s.dequeue < |s.ring.slots| && Enabled(s, step) && Next(s, step) == t
  }

  lemma {:induction false} RunThrough(states: seq<System>, steps: seq<Step>)
    requires |states| == |steps| + 1 && states[|steps|].dequeue < |states[|steps|].ring.slots|
    requires |states[|steps|].ring.slots| >= 2
    requires forall i: nat :: i < |steps| ==> Leads(states[i], steps[i], states[i + 1])
    ensures Possible(states[0], steps) && Run(states[0], steps) == states[|steps|]
    decreases |steps|
  {
    hide Enabled, Next;
    if steps != [] {
      assert Leads(states[0], steps[0], states[0 + 1]);
      forall i: nat | i < |steps| - 1
        ensures Leads(states[1..][i], steps[1..][i], states[1..][i + 1])
      {
        assert Leads(states[i + 1], steps[i + 1], states[i + 1 + 1]);
      }
      RunThrough(states[1..], steps[1..]);
    }
  }

  /** The systems of a run on one slot and a link: the controller consumes the first TRB without
      following the link, and the producer fills the slot once more and ends that lap. */
  function ParkingStates(a: Body, b: Body): (states: seq<System>)
    ensures |states| == 6
  {
    [System(Ring([Trb(Blank, false), Trb(Link, true)], 0, true), 0, true, [], [], []),
     System(Ring([Trb(a, true), Trb(Link, true)], 1, true), 0, true, [a], [a], []),
     System(Ring([Trb(a, true), Trb(Link, true)], 0, false), 0, true, [a], [a], []),
     System(Ring([Trb(a, true), Trb(Link, true)], 0, false), 1, true, [a], [], [a]),
     System(Ring([Trb(b, false), Trb(Link, true)], 1, false), 1, true, [a, b], [b], [a]),
     System(Ring([Trb(b, false), Trb(Link, false)], 0, true), 1, true, [a, b], [b], [a])]
  }

  function ParkingSteps(a: Body, b: Body): (steps: seq<Step>)
    ensures |steps| == 5
  {
    [PutTrb(a), PutLink, Consume, PutTrb(b), PutLink]
  }

  lemma ParkingLeads(a: Body, b: Body, i: nat)
    requires i < 5
    ensures Leads(ParkingStates(a, b)[i], ParkingSteps(a, b)[i], ParkingStates(a, b)[i + 1])
  {
    hide Leads, ParkingStates, ParkingSteps;
    if i < 2 {
      FirstLap(a, b, i);
    } else {
      SecondLap(a, b, i);
    }
  }

  lemma FirstLap(a: Body, b: Body, i: nat)
    requires i < 2
    ensures Leads(ParkingStates(a, b)[i], ParkingSteps(a, b)[i], ParkingStates(a, b)[i + 1])
  {
    var s, t := ParkingStates(a, b)[i], ParkingStates(a, b)[i + 1];
    if i == 0 {
      assert Store(s.ring, a).slots == t.ring.slots;
    } else {
      assert CloseLap(s.ring).slots == t.ring.slots;
    }
  }

  lemma SecondLap(a: Body, b: Body, i: nat)
    requires 2 <= i < 5
    ensures Leads(ParkingStates(a, b)[i], ParkingSteps(a, b)[i], ParkingStates(a, b)[i + 1])
  {
    hide Leads, ParkingStates, ParkingSteps;
    if i == 2 {
      ThirdStep(a, b);
    } else {
      LapEnds(a, b, i);
    }
  }

  lemma ThirdStep(a: Body, b: Body)
    ensures Leads(ParkingStates(a, b)[2], ParkingSteps(a, b)[2], ParkingStates(a, b)[3])
  {
    assert Next(ParkingStates(a, b)[2], Consume).consumed == ParkingStates(a, b)[3].consumed;
  }

  lemma LapEnds(a: Body, b: Body, i: nat)
    requires 3 <= i < 5
    ensures Leads(ParkingStates(a, b)[i], ParkingSteps(a, b)[i], ParkingStates(a, b)[i + 1])
  {
    var s, t := ParkingStates(a, b)[i], ParkingStates(a, b)[i + 1];
    if i == 3 {
      assert Store(s.ring, b).slots == t.ring.slots;
    } else {
      assert CloseLap(s.ring).slots == t.ring.slots;
    }
  }

  /** The loss is reached: b is outstanding, and nothing is ever found again. */
  lemma ParkingHappens(a: Body, b: Body)
    ensures Possible(Initial(2), ParkingSteps(a, b))
    ensures Lost(Run(Initial(2), ParkingSteps(a, b))) && Run(Initial(2), ParkingSteps(a, b)).pending == [b]
  {
    hide Leads, Possible, Run;
    var states := ParkingStates(a, b);
    assert Initial(2) == states[0] by {
      assert Initial(2).ring.slots == [Trb(Blank, false), Trb(Link, true)];
    }
    forall i: nat | i < 5
      ensures Leads(states[i], ParkingSteps(a, b)[i], states[i + 1])
    {
      ParkingLeads(a, b, i);
    }
    RunThrough(states, ParkingSteps(a, b));
  }

  // ----- what a caller can do -----

  /** A whole call of `enqueue` that the controller does not interrupt. */
  function Enqueued(s: System, body: Body): (t: System)
    requires s.ring.enqueue < |s.ring.slots|
    ensures |t.ring.slots| == |s.ring.slots| && t.dequeue == s.dequeue
  {
    var r := Store(s.ring, body);
    s.(ring := if r.enqueue == r.Last() then CloseLap(r) else r,
       produced := s.produced + [body], pending := s.pending + [body])
  }

  /** Its work is found exactly when it does not end a lap over a resting controller. */
  lemma EnqueueFound(s: System, body: Body)
    requires Inv(s) && Enabled(s, PutTrb(body))
    ensures FindsWork(Enqueued(s, body)) <==> !(Resting(s) && s.ring.enqueue == s.ring.Last() - 1)
  {
    hide FindsWork, Ahead, SameLap, Early, Laps;
    PutTrbKeeps(s, body);
    var t := Next(s, PutTrb(body));
    if t.ring.enqueue == t.ring.Last() {
      LinkFound(t);
    } else {
      WorkIsPending(t);
    }
  }

  /** The producer puts a TRB only while fewer than N - 2 are outstanding. */
  predicate Careful(s: System, steps: seq<Step>)
    requires Possible(s, steps)
    decreases |steps|
  {
    steps == []
    || ((steps[0].PutTrb? ==> |s.pending| < s.ring.Last() - 1) && Careful(Next(s, steps[0]), steps[1..]))
  }

  /** With that care every interleaving keeps the work findable. */
  lemma BoundAvoidsParking(n: nat, steps: seq<Step>)
    requires n >= 2 && Possible(Initial(n), steps) && Careful(Initial(n), steps)
    ensures var s := Run(Initial(n), steps);
            && |s.ring.slots| >= 2 && s.dequeue < |s.ring.slots|
            && |s.pending| <= s.ring.Last() - 1
            && s.produced == s.consumed + s.pending && (FindsWork(s) <==> s.pending != [])
  {
    InitialInv(n);
    CarefulKeeps(Initial(n), steps);
    var s := Run(Initial(n), steps);
    InvSizes(s);
    WorkIsPending(s);
  }

  lemma {:induction false} CarefulKeeps(s: System, steps: seq<Step>)
    requires Inv(s) && |s.pending| <= s.ring.Last() - 1 && Possible(s, steps) && Careful(s, steps)
    ensures Inv(Run(s, steps)) && |Run(s, steps).pending| <= Run(s, steps).ring.Last() - 1
    decreases |steps|
  {
    hide Inv, Enabled, Next, Resting;
    if steps != [] {
      CarefulStep(s, steps[0]);
      CarefulKeeps(Next(s, steps[0]), steps[1..]);
    }
  }

  lemma CarefulStep(s: System, step: Step)
    requires Inv(s) && |s.pending| <= s.ring.Last() - 1 && Enabled(s, step)
    requires step.PutTrb? ==> |s.pending| < s.ring.Last() - 1
    ensures Inv(Next(s, step)) && |Next(s, step).pending| <= Next(s, step).ring.Last() - 1
  {
    hide Inv, Lost, Resting;
    StepKeeps(s, step);
    if step == PutLink {
      RoomMeansAwake(s);
    }
  }

  lemma RoomMeansAwake(s: System)
    requires Inv(s) && |s.pending| <= s.ring.Last() - 1 && s.ring.enqueue == s.ring.Last()
    ensures !Resting(s)
  {
  }
}
