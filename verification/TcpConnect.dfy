/** What the sockets do get done: connections open, are handed out and are closed. */
module TcpConnect {
  import opened Machine
  import opened Tcp
  import opened TcpRuns
  import opened Vector

  // ----- one segment -----

  /** The state after a segment, by state, FIN, ACK and whether the ack is the number sent next. */
  function StateAfter(st: TcpState, syn: bool, fin: bool, ackFlag: bool, acked: bool): TcpState {
    match (st, fin, ackFlag, acked)
    case (SynReceived, _, true, true) => if syn then SynReceived else Established
    case (Established, true, _, _) => CloseWait
    case (FinWait1, true, true, true) => TimeWait
    case (FinWait1, true, _, _) => Closing
    case (FinWait1, false, true, _) => FinWait2
    case (FinWait2, true, _, _) => TimeWait
    case _ => st
  }

  /** The exact effect of a segment on its connection. A payload below 8197 bytes is counted and
      nothing else; without one the state moves as above, a FIN takes one number, and a repeated SYN
      starts the numbers afresh. */
  lemma SegmentMoves(k: Socket, g: Segment)
    ensures var r := Received(k, g);
            && (0 < g.payload < 8197 ==> r == k.(recvSeq := (k.recvSeq + g.payload) % 0x1_0000_0000))
            && (g.payload == 0 || g.payload >= 8197 ==>
                  r == if g.syn && k.state == SynReceived
                       then k.(recvSeq := (g.seqNo + 1) % 0x1_0000_0000, sendSeq := 1001)
                       else k.(state := StateAfter(k.state, g.syn, g.fin, g.ackFlag, g.ack == k.sendSeq),
                               recvSeq := if g.fin then (k.recvSeq + 1) % 0x1_0000_0000 else k.recvSeq))
  {
  }

  // ----- the handshake -----

  /** Index i of the vector holds the first listener on the port. */
  predicate FirstListener(s: Stack, port: nat, i: nat)
    requires Sound(s)
  {
    && i < |s.sockets| && s.mem[s.sockets[i]].state == Listen && s.mem[s.sockets[i]].localPort == port
    && (forall j :: 0 <= j < i ==> s.mem[s.sockets[j]].state != Listen || s.mem[s.sockets[j]].localPort != port)
  }

  predicate HasEnds(k: Socket, g: Segment) {
    k.localPort == g.dstPort && k.remoteIp == g.srcIp && k.remotePort == g.srcPort
  }

  lemma {:induction false} FirstIndex(s: Stack, key: Key, i: nat, k: nat)
    requires Sound(s) && k <= i < |s.sockets| && Matches(s.mem[s.sockets[i]], key)
    requires forall j :: k <= j < i ==> !Matches(s.mem[s.sockets[j]], key)
    ensures First(s, key, k) == i
    decreases i - k
  {
    if k < i {
      FirstIndex(s, key, i, k + 1);
    }
  }

  lemma ListenerFound(s: Stack, port: nat, i: nat)
    requires Sound(s) && FirstListener(s, port, i)
    ensures Find(s, ByListener(port)) == Some(s.sockets[i])
  {
    FirstIndex(s, ByListener(port), i, 0);
  }

  /** A SYN for a listener from an end without connection opens exactly one socket, with the least
      unused number, behind the others. */
  lemma SynOpens(s: Stack, g: Segment, i: nat) returns (num: nat)
    requires Inv(s) && Sound(s) && FirstListener(s, g.dstPort, i) && g.syn && |s.sockets| < 128
    requires forall a :: a in s.mem ==> !HasEnds(s.mem[a], g)
    ensures Enabled(s, Arrive(g))
    ensures num < 128 && forall a :: a in s.mem ==> s.mem[a].num != num
    ensures forall k: nat :: k < num ==> Find(s, ByNum(k)).Some?
    ensures Next(s, Arrive(g)) == Stack(
              s.mem[s.next := Socket(num, g.dstPort, g.srcIp, g.srcPort, SynReceived, 1001, (g.seqNo + 1) % 0x1_0000_0000,
                                     [], 0, 0, 0, None)],
              s.sockets + [s.next], s.next + 1)
  {
    hide Inv, Find, UnusedNum;
    ListenerFound(s, g.dstPort, i);
    NobodyHas(s, g);
    NumbersRunOut(s);
    num := UnusedNum(s, 0);
    LeastUnused(s, 0);
    EveryoneListed(s);
    assert forall a :: a in s.mem ==> !Matches(s.mem[a], ByNum(num));
    var t := Next(s, Arrive(g));
    assert t.mem == s.mem[s.next := Socket(num, g.dstPort, g.srcIp, g.srcPort, SynReceived, 1001,
                                           (g.seqNo + 1) % 0x1_0000_0000, [], 0, 0, 0, None)];
  }

  lemma EveryoneListed(s: Stack)
    requires Inv(s)
    ensures forall a :: a in s.mem ==> a in s.sockets
  {
    hide AllOk, Unique, PendingAll;
  }

  /** Every number below the one chosen is taken. */
  lemma {:induction false} LeastUnused(s: Stack, i: nat)
    requires Sound(s) && i <= MAX_SOCKETS
    ensures forall k: nat :: i <= k < UnusedNum(s, i) ==> Find(s, ByNum(k)).Some?
    decreases MAX_SOCKETS - i
  {
    hide Find;
    if i < MAX_SOCKETS {
      LeastUnused(s, i + 1);
    }
  }

  lemma NobodyHas(s: Stack, g: Segment)
    requires Sound(s) && forall a :: a in s.mem ==> !HasEnds(s.mem[a], g)
    ensures Find(s, ByConnection(g.dstPort, g.srcIp, g.srcPort)).None?
  {
    hide First;
  }

  /** The lookup finds the connection with the ends of the segment and no other. */
  lemma ConnectionFound(s: Stack, a: nat, g: Segment)
    requires Inv(s) && a in s.mem && HasEnds(s.mem[a], g) && Connected(s.mem[a])
    ensures Sound(s) && Find(s, ByConnection(g.dstPort, g.srcIp, g.srcPort)) == Some(a)
  {
    hide First, PendingAll, AllOk;
    SoundInv(s);
    var c := Find(s, ByConnection(g.dstPort, g.srcIp, g.srcPort));
    assert a in s.sockets;
    assert Matches(s.mem[a], ByConnection(g.dstPort, g.srcIp, g.srcPort));
    OnlyOne(s, a, c.value);
  }

  lemma OnlyOne(s: Stack, a: nat, b: nat)
    requires Unique(s) && a in s.mem && b in s.mem && Connected(s.mem[a]) && SameConnection(s.mem[a], s.mem[b])
    ensures a == b
  {
  }

  /** The ACK that ends the handshake establishes the connection and puts it last on the list of the
      first listener on the port; accept then returns it. */
  lemma AckCompletes(s: Stack, a: nat, g: Segment, i: nat)
    requires Inv(s) && Sound(s) && a in s.mem && s.mem[a].state == SynReceived && HasEnds(s.mem[a], g)
    requires FirstListener(s, g.dstPort, i)
    requires g.ackFlag && g.ack == 1001 && !g.syn && !g.fin && g.payload == 0
    ensures Enabled(s, Arrive(g))
    ensures var l := s.sockets[i];
            var t := Next(s, Arrive(g));
            && a != l && t.sockets == s.sockets && t.next == s.next
            && t.mem == s.mem[a := s.mem[a].(state := Established, joined := 1, waiting := Some(l))]
                             [l := s.mem[l].(pending := s.mem[l].pending + [a])]
            && Accept(t, l).1 == Some(a)
  {
    hide Inv, Find, SocketOk;
    SynReceivedIs(s, a);
    ConnectionFound(s, a, g);
    SegmentMoves(s.mem[a], g);
    var l := s.sockets[i];
    var k := s.mem[a].(state := Established);
    var s1 := s.(mem := s.mem[a := k]);
    assert Received(s.mem[a], g) == k;
    assert s1.sockets[i] != a;
    assert FirstListener(s1, g.dstPort, i);
    ListenerFound(s1, g.dstPort, i);
    var t := Next(s, Arrive(g));
    assert t == Enlist(s1, a, g.dstPort);
    assert t.mem[l].pending == s.mem[l].pending + [a];
  }

  lemma SynReceivedIs(s: Stack, a: nat)
    requires Inv(s) && a in s.mem && s.mem[a].state == SynReceived
    ensures Connected(s.mem[a]) && s.mem[a].sendSeq == 1001 && s.mem[a].joined == 0
  {
    hide Addressed, Unique, PendingAll;
    assert SocketOk(s.mem[a]);
  }

  /** The whole handshake: a SYN and an empty ACK with ack 1001 leave an established connection
      with exactly these ends and recv_seq = seq + 1, last on the first listener's list. */
  lemma Handshake(s: Stack, syn: Segment, ack: Segment, i: nat)
    requires Inv(s) && Sound(s) && FirstListener(s, syn.dstPort, i) && |s.sockets| < 128
    requires forall a :: a in s.mem ==> !HasEnds(s.mem[a], syn)
    requires syn.syn && ack.ackFlag && ack.ack == 1001 && !ack.syn && !ack.fin && ack.payload == 0
    requires ack.srcIp == syn.srcIp && ack.srcPort == syn.srcPort && ack.dstPort == syn.dstPort
    ensures Possible(s, [Arrive(syn), Arrive(ack)])
    ensures var a, l := s.next, s.sockets[i];
            var t := Run(s, [Arrive(syn), Arrive(ack)]);
            && a !in s.mem && t.sockets == s.sockets + [a] && a in t.mem && l in t.mem
            && HasEnds(t.mem[a], syn) && t.mem[a].state == Established && t.mem[a].recvSeq == (syn.seqNo + 1) % 0x1_0000_0000
            && t.mem[l] == s.mem[l].(pending := s.mem[l].pending + [a])
            && Accept(t, l).1 == Some(a)
            && (forall b :: b in s.mem && b != l ==> b in t.mem && t.mem[b] == s.mem[b])
  {
    hide Inv, Enabled, Next, Accept;
    var _ := SynOpens(s, syn, i);
    var a, l := s.next, s.sockets[i];
    var s1 := Next(s, Arrive(syn));
    NextFresh(s);
    EventKeeps(s, Arrive(syn));
    SoundInv(s1);
    assert FirstListener(s1, syn.dstPort, i);
    AckCompletes(s1, a, ack, i);
    var t := Next(s1, Arrive(ack));
    EventKeeps(s1, Arrive(ack));
    SoundInv(t);
    TwoEvents(s, Arrive(syn), Arrive(ack));
  }

  lemma NextFresh(s: Stack)
    requires Inv(s)
    ensures s.next !in s.mem
  {
    hide AllOk, Unique, PendingAll;
  }

  lemma TwoEvents(s: Stack, e: Event, f: Event)
    requires Sound(s) && Enabled(s, e) && Sound(Next(s, e)) && Enabled(Next(s, e), f) && Sound(Next(Next(s, e), f))
    ensures Possible(s, [e, f]) && Run(s, [e, f]) == Next(Next(s, e), f)
  {
    hide Enabled, Next, Sound;
    assert [e, f][1..] == [f] && [f][1..] == [];
    RunNothing(Next(Next(s, e), f));
  }

  /** accept hands out the newest pending connection and takes it off the list; without one, or on
      a socket that does not listen, it changes nothing. */
  lemma AcceptTakes(s: Stack, l: nat)
    requires Inv(s) && l in s.mem
    ensures var (t, r) := Accept(s, l);
            var n := |s.mem[l].pending| - 1;
            if s.mem[l].state != Listen || n < 0 then r == None && t == s
            else
              var a := s.mem[l].pending[n];
              && r == Some(a) && a in s.mem && a != l && t.sockets == s.sockets && t.next == s.next
              && t.mem == s.mem[l := s.mem[l].(pending := s.mem[l].pending[..n])][a := s.mem[a].(waiting := None)]
  {
    hide Addressed, Unique, SocketOk;
    if s.mem[l].state == Listen && s.mem[l].pending != [] {
      WaitingElsewhere(s, l);
    }
  }

  /** socket() adds one closed socket without ends under the least unused number, or nothing. */
  lemma SocketDoes(s: Stack) returns (num: nat)
    requires Inv(s)
    ensures Sound(s) && (|s.sockets| >= 128 ==> NewSocket(s) == s)
    ensures |s.sockets| < 128 ==>
              && num < 128 && (forall a :: a in s.mem ==> s.mem[a].num != num)
              && (forall k: nat :: k < num ==> Find(s, ByNum(k)).Some?)
              && NewSocket(s) == Stack(s.mem[s.next := Socket(num, 0, 0, 0, Closed, 0, 0, [], 0, 0, 0, None)],
                                       s.sockets + [s.next], s.next + 1)
  {
    hide Inv, Find, UnusedNum;
    NumbersRunOut(s);
    num := 0;
    if |s.sockets| < 128 {
      num := UnusedNum(s, 0);
      LeastUnused(s, 0);
      EveryoneListed(s);
      assert forall a :: a in s.mem ==> !Matches(s.mem[a], ByNum(num));
    }
  }

  /** socket, bind and listen add one listener under the least unused number while there is one. */
  lemma OpenPortDoes(s: Stack, port: nat) returns (num: nat)
    requires Inv(s)
    ensures Sound(s) && (|s.sockets| >= 128 ==> OpenListener(s, port) == s)
    ensures |s.sockets| < 128 ==>
              && num < 128 && (forall a :: a in s.mem ==> s.mem[a].num != num)
              && (forall k: nat :: k < num ==> Find(s, ByNum(k)).Some?)
              && OpenListener(s, port) == Stack(s.mem[s.next := Socket(num, port, 0, 0, Listen, 0, 0, [], 0, 0, 0, None)],
                                                s.sockets + [s.next], s.next + 1)
  {
    hide Inv, Find, UnusedNum;
    NumbersRunOut(s);
    num := 0;
    if |s.sockets| < 128 {
      num := UnusedNum(s, 0);
      LeastUnused(s, 0);
      EveryoneListed(s);
      assert forall a :: a in s.mem ==> !Matches(s.mem[a], ByNum(num));
      assert OpenListener(s, port).mem == s.mem[s.next := Socket(num, port, 0, 0, Listen, 0, 0, [], 0, 0, 0, None)];
    }
  }

  // ----- closing -----

  /** close of an established connection sends its FIN: one number and FIN_WAIT_1, nothing else. A
      closed socket stays as it is. */
  lemma CloseEstablished(s: Stack, a: nat)
    requires Sound(s) && a in s.mem
    ensures s.mem[a].state == Established ==>
              CloseOne(s, a) == s.(mem := s.mem[a := s.mem[a].(sendSeq := (s.mem[a].sendSeq + 1) % 0x1_0000_0000,
                                                               state := FinWait1, fins := s.mem[a].fins + 1)])
    ensures s.mem[a].state == Closed ==> CloseOne(s, a) == s
  {
  }

  /** And a connection in any other state goes, alone. */
  lemma CloseOther(s: Stack, a: nat)
    requires Inv(s) && Accepted(s, a) && s.mem[a].state != Established
    ensures Sound(s) && CloseOne(s, a).mem == s.mem - {a} && CloseOne(s, a).next == s.next
  {
    hide Inv, Remove;
    SoundInv(s);
    NotClosed(s, a);
    RemoveKeeps(s, a);
  }

  /** What closing a listener makes of a connection on its list. */
  function Finished(k: Socket): Socket {
    k.(waiting := None, sendSeq := (k.sendSeq + 1) % 0x1_0000_0000, state := FinWait1, fins := k.fins + 1)
  }

  /** t is s with the connections v closed and nothing else changed. */
  ghost predicate ClosedAll(s: Stack, t: Stack, v: seq<nat>) {
    && (forall a :: a in t.mem <==> a in s.mem && (a in v ==> s.mem[a].state == Established))
    && (forall a :: a in t.mem ==> t.mem[a] == if a in v then Finished(s.mem[a]) else s.mem[a])
  }

  /** One pending connection: an established one sends its FIN, any other goes. */
  lemma ClosePendingDoes(s: Stack, l: nat, k: Socket, v: seq<nat>)
    requires Sound(s) && Distinct(s.sockets) && l in s.mem && k.state == Listen && k.num == s.mem[l].num && v != []
    requires Inv(Virtual(s, l, k, v))
    ensures ClosedAll(s, ClosePending(s, v[0]), [v[0]])
  {
    hide Inv, CloseOne, SocketOk, Sound;
    FrontKeeps(s, l, k, v);
    var a := v[0];
    var s1 := s.(mem := s.mem[a := s.mem[a].(waiting := None)]);
    SoundStays(s, s1);
    var w1 := Virtual(s1, l, k, v[1..]);
    SoundInv(w1);
    CloseOneIs(s1, l, k, v[1..], a);
    if s.mem[a].state == Established {
      CloseEstablished(s1, a);
    } else {
      OtherGone(s1, w1, l, k, v[1..], a);
    }
  }

  /** close removes every other connection. */
  lemma OtherGone(s: Stack, w: Stack, l: nat, k: Socket, v: seq<nat>, a: nat)
    requires Sound(s) && l in s.mem && a in s.mem && a != l && k.num == s.mem[l].num && w == Virtual(s, l, k, v)
    requires Inv(w) && s.mem[a].state != Established && s.mem[a].state != Listen
    ensures a !in CloseOne(s, a).mem
  {
    hide Inv, First, SwapRemoved;
    SoundInv(w);
    NotClosed(w, a);
    SameFirst(s, w, s.mem[a].num, 0);
    InvParts(w);
    var i := FirstIs(w, a);
  }

  lemma {:induction false} CloseEachDoes(s: Stack, l: nat, k: Socket, v: seq<nat>)
    requires Sound(s) && Distinct(s.sockets) && l in s.mem && k.state == Listen && k.num == s.mem[l].num
    requires Inv(Virtual(s, l, k, v))
    ensures ClosedAll(s, CloseEach(s, v), v)
    decreases |v|
  {
    hide Inv, ClosePending, Sound, Distinct, Virtual, Finished;
    if v == [] {
      assert CloseEach(s, v) == s;
    } else {
      ClosePendingDoes(s, l, k, v);
      PendingStep(s, l, k, v);
      var s1 := ClosePending(s, v[0]);
      CloseEachDoes(s1, l, k, v[1..]);
      assert forall a :: a in v <==> a == v[0] || a in v[1..];
    }
  }

  /** Closing a listener removes it, sends a FIN on every established connection of its list, removes
      the others of the list, and leaves every other socket as it is. */
  lemma CloseListenerDoes(s: Stack, l: nat)
    requires Inv(s) && Enabled(s, CloseListener(l))
    ensures var t := CloseListening(s, l);
            && l !in s.mem[l].pending
            && (forall a :: a in t.mem <==> a in s.mem && a != l && (a in s.mem[l].pending ==> s.mem[a].state == Established))
            && (forall a :: a in t.mem ==> t.mem[a] == if a in s.mem[l].pending then Finished(s.mem[a]) else s.mem[a])
  {
    hide Inv, Sound, Distinct, CloseEach, SocketOk, Remove, Finished;
    SoundInv(s);
    var k := s.mem[l];
    var s0 := s.(mem := s.mem[l := k.(state := Closed)]);
    assert Virtual(s0, l, k, k.pending).mem == s.mem;
    assert Virtual(s0, l, k, k.pending) == s;
    SoundStays(s, s0);
    EachKeeps(s0, l, k, k.pending);
    CloseEachDoes(s0, l, k, k.pending);
    var t := CloseEach(s0, k.pending);
    var w := Virtual(t, l, k, []);
    SoundInv(w);
    ListenerFree(s, l);
    RemoveKeeps(w, l);
    RemoveSame(t, w, l);
  }
}
