/** The passive-open TCP sockets: what a segment or a system call does to them. */
module Tcp {
  import opened Machine
  import opened Vector

  const FIRST_SEQ: nat := 1000
  const MAX_SOCKETS: nat := 128
  /** Payloads of this many bytes and more are not taken. */
  const PAYLOAD_LIMIT: nat := 8197

  datatype TcpState = Closed | Listen | SynSent | SynReceived | Established | FinWait1 | FinWait2
                    | CloseWait | Closing | LastAck | TimeWait

  /** The fields of tcp_socket; `pending` holds addresses. The last four are history: bytes
      given to send, FIN segments sent, times put on a pending list, and whose list holds it. */
  datatype Socket = Socket(num: int, localPort: nat, remoteIp: nat, remotePort: nat, state: TcpState,
                           sendSeq: nat, recvSeq: nat, pending: seq<nat>,
                           sent: nat, fins: nat, joined: nat, waiting: Option<nat>)

  /** The sockets in memory by address, the vector `sockets`, and the next unused address. */
  datatype Stack = Stack(mem: map<nat, Socket>, sockets: seq<nat>, next: nat)

  datatype Segment = Segment(srcIp: nat, srcPort: nat, dstPort: nat, seqNo: nat, ack: nat,
                             fin: bool, syn: bool, ackFlag: bool, payload: nat)

  /** Every entry of the vector points to a socket. */
  predicate Sound(s: Stack) {
    forall i :: 0 <= i < |s.sockets| ==> s.sockets[i] in s.mem
  }

  predicate Distinct(v: seq<nat>) {
    forall i, j :: 0 <= i < j < |v| ==> v[i] != v[j]
  }

  // ----- lookup -----

  /** What the three search functions compare. */
  datatype Key = ByConnection(localPort: nat, remoteIp: nat, remotePort: nat) | ByListener(localPort: nat) | ByNum(num: int)

  predicate Matches(k: Socket, key: Key) {
    match key
    case ByConnection(lp, ip, rp) => k.localPort == lp && k.remoteIp == ip && k.remotePort == rp
    case ByListener(lp) => k.localPort == lp && k.state == Listen
    case ByNum(num) => k.num == num
  }

  /** Index of the first matching entry from i on, or the length. */
  function First(s: Stack, key: Key, i: nat): (r: nat)
    requires Sound(s) && i <= |s.sockets|
    ensures i <= r <= |s.sockets|
    ensures r < |s.sockets| ==> Matches(s.mem[s.sockets[r]], key)
    ensures forall j :: i <= j < r ==> !Matches(s.mem[s.sockets[j]], key)
    decreases |s.sockets| - i
  {
    if i == |s.sockets| || Matches(s.mem[s.sockets[i]], key) then i else First(s, key, i + 1)
  }

  function Find(s: Stack, key: Key): (r: Option<nat>)
    requires Sound(s)
    ensures r.Some? ==> r.value in s.sockets && r.value in s.mem && Matches(s.mem[r.value], key)
    ensures r.None? ==> forall a :: a in s.sockets ==> a in s.mem && !Matches(s.mem[a], key)
  {
    var i := First(s, key, 0);
    if i < |s.sockets| then Some(s.sockets[i]) else None
  }

  // ----- socket and remove_socket -----

  /** The least unused number from i on; -1 when all 128 are taken. */
  function UnusedNum(s: Stack, i: nat): (r: int)
    requires Sound(s) && i <= MAX_SOCKETS
    ensures r == -1 || (i <= r < MAX_SOCKETS && Find(s, ByNum(r)).None?)
    decreases MAX_SOCKETS - i
  {
    if i == MAX_SOCKETS then -1
    else if Find(s, ByNum(i)).None? then i
    else UnusedNum(s, i + 1)
  }

  function BlankSocket(num: int): Socket {
    Socket(num, 0, 0, 0, Closed, 0, 0, [], 0, 0, 0, None)
  }

  /** socket(); unchanged when no number is left. */
  function NewSocket(s: Stack): Stack
    requires Sound(s)
  {
    var num := UnusedNum(s, 0);
    if num == -1 then s
    else Stack(s.mem[s.next := BlankSocket(num)], s.sockets + [s.next], s.next + 1)
  }

  /** remove_socket destroys the first socket with the number. */
  function Remove(s: Stack, num: int): Stack
    requires Sound(s)
  {
    var i := First(s, ByNum(num), 0);
    if i == |s.sockets| then s
    else s.(mem := s.mem - {s.sockets[i]}, sockets := SwapRemoved(s.sockets, i))
  }

  // ----- receive_tcp -----

  function AfterFin(k: Socket, g: Segment): Socket {
    var counted := k.(recvSeq := (k.recvSeq + 1) % P32);
    if k.state == FinWait2 then counted.(state := TimeWait)
    else if k.state == FinWait1 then
      counted.(state := if g.ackFlag && g.ack == k.sendSeq then TimeWait else Closing)
    else if k.state == Established then counted.(state := CloseWait)
    else counted
  }

  function AfterAck(k: Socket): Socket {
    if k.state == FinWait1 then k.(state := FinWait2) else k
  }

  predicate Retransmitted(k: Socket, g: Segment) {
    g.syn && k.state == SynReceived
  }

  predicate Completes(k: Socket, g: Segment) {
    g.ackFlag && k.state == SynReceived && g.ack == k.sendSeq
  }

  /** The socket after a segment for its connection, but for the pending list it may join. */
  function Received(k: Socket, g: Segment): Socket {
    if 0 < g.payload < PAYLOAD_LIMIT then k.(recvSeq := (k.recvSeq + g.payload) % P32)
    else
      var k1 := if g.fin then AfterFin(k, g) else k;
      var k2 := if g.ackFlag then AfterAck(k1) else k1;
      if Retransmitted(k2, g) then k2.(recvSeq := (g.seqNo + 1) % P32, sendSeq := FIRST_SEQ + 1)
      else if Completes(k2, g) then k2.(state := Established)
      else k2
  }

  /** Does the segment finish the handshake? */
  predicate Joins(k: Socket, g: Segment) {
    k.state == SynReceived && Received(k, g).state == Established
  }

  /** An established connection is put on the list of the listener of its port, if any. */
  function Enlist(s: Stack, a: nat, port: nat): Stack
    requires Sound(s) && a in s.mem
  {
    var l := Find(s, ByListener(port));
    if l.None? then s
    else
      var m := s.mem[l.value := s.mem[l.value].(pending := s.mem[l.value].pending + [a])];
      s.(mem := m[a := m[a].(joined := m[a].joined + 1, waiting := l)])
  }

  /** The new connection of a SYN. */
  function Opened(k: Socket, g: Segment): Socket {
    k.(localPort := g.dstPort, remotePort := g.srcPort, remoteIp := g.srcIp,
       recvSeq := (g.seqNo + 1) % P32, sendSeq := FIRST_SEQ + 1, state := SynReceived)
  }

  /** A segment for an existing connection. */
  function OnConnection(s: Stack, a: nat, g: Segment): Stack
    requires Sound(s) && a in s.mem
  {
    var s' := s.(mem := s.mem[a := Received(s.mem[a], g)]);
    if Joins(s.mem[a], g) then Enlist(s', a, g.dstPort) else s'
  }

  /** A SYN for no existing connection; None where the source would go on with a null socket. */
  function OnSyn(s: Stack, g: Segment): Option<Stack>
    requires Sound(s)
  {
    if Find(s, ByListener(g.dstPort)).None? then Some(s)
    else if UnusedNum(s, 0) == -1 then None
    else
      var s' := NewSocket(s);
      Some(s'.(mem := s'.mem[s.next := Opened(s'.mem[s.next], g)]))
  }

  /** receive_tcp */
  function Receive(s: Stack, g: Segment): Option<Stack>
    requires Sound(s)
  {
    var c := Find(s, ByConnection(g.dstPort, g.srcIp, g.srcPort));
    if c.Some? then Some(OnConnection(s, c.value, g))
    else if g.syn then OnSyn(s, g)
    else Some(s)
  }

  // ----- system calls -----

  /** socket, bind and listen. */
  function OpenListener(s: Stack, port: nat): Stack
    requires Sound(s)
  {
    var s' := NewSocket(s);
    if UnusedNum(s, 0) == -1 then s
    else s'.(mem := s'.mem[s.next := s'.mem[s.next].(localPort := port, state := Listen)])
  }

  /** accept takes the newest pending connection. */
  function Accept(s: Stack, l: nat): (Stack, Option<nat>)
    requires l in s.mem
  {
    var k := s.mem[l];
    if k.state != Listen || k.pending == [] then (s, None)
    else
      var a := k.pending[|k.pending| - 1];
      var m := s.mem[l := k.(pending := k.pending[..|k.pending| - 1])];
      (s.(mem := if a in m then m[a := m[a].(waiting := None)] else m), Some(a))
  }

  function Send(s: Stack, a: nat, len: nat): Stack
    requires a in s.mem
  {
    var k := s.mem[a];
    s.(mem := s.mem[a := k.(sendSeq := (k.sendSeq + len) % P32, sent := k.sent + len)])
  }

  /** close of a socket that is not listening. */
  function CloseOne(s: Stack, a: nat): Stack
    requires Sound(s) && a in s.mem
  {
    var k := s.mem[a];
    if k.state == Closed then s
    else if k.state == Established then
      s.(mem := s.mem[a := k.(sendSeq := (k.sendSeq + 1) % P32, state := FinWait1, fins := k.fins + 1)])
    else Remove(s, k.num)
  }

  /** With every address once in the vector, a removal leaves it so and every entry good. */
  lemma RemoveSound(s: Stack, num: int)
    requires Sound(s) && Distinct(s.sockets)
    ensures Sound(Remove(s, num)) && Distinct(Remove(s, num).sockets)
  {
    var i := First(s, ByNum(num), 0);
    if i < |s.sockets| {
      var v := SwapRemoved(s.sockets, i);
      assert forall j :: 0 <= j < |v| ==> v[j] == s.sockets[if j == i then |s.sockets| - 1 else j];
    }
  }

  /** One round of the loop over a closing listener's connections. It meets neither an address
      without socket nor a listener, where the source would go wrong or deeper. */
  function ClosePending(s: Stack, a: nat): (t: Stack)
    requires Sound(s) && Distinct(s.sockets)
    ensures Sound(t) && Distinct(t.sockets)
  {
    if a !in s.mem || s.mem[a].state == Listen then s
    else
      var s1 := s.(mem := s.mem[a := s.mem[a].(waiting := None)]);
      RemoveSound(s1, s1.mem[a].num);
      CloseOne(s1, a)
  }

  function CloseEach(s: Stack, v: seq<nat>): (t: Stack)
    requires Sound(s) && Distinct(s.sockets)
    ensures Sound(t) && Distinct(t.sockets)
    decreases |v|
  {
    if v == [] then s else CloseEach(ClosePending(s, v[0]), v[1..])
  }

  /** close of a listener: its pending connections are closed, then it is removed. */
  function CloseListening(s: Stack, l: nat): Stack
    requires Sound(s) && Distinct(s.sockets) && l in s.mem
  {
    var k := s.mem[l];
    Remove(CloseEach(s.(mem := s.mem[l := k.(state := Closed)]), k.pending), k.num)
  }

  class TcpStack {
    var mem: map<nat, Socket>
    var sockets: seq<nat>
    var nextAddr: nat

    function Value(): Stack
      reads this
    {
      Stack(mem, sockets, nextAddr)
    }

    predicate Valid()
      reads this
    {
      Sound(Value())
    }

    constructor ()
      ensures Valid() && Value() == Stack(map[], [], 0)
    {
      mem := map[];
      sockets := [];
      nextAddr := 0;
    }

    /** find_socket_connection */
    method FindSocketConnection(localPort: nat, remoteIp: nat, remotePort: nat) returns (r: Option<nat>)
      requires Valid()
      ensures r == Find(Value(), ByConnection(localPort, remoteIp, remotePort))
    {
      var i := 0;
      while i < |sockets|
        invariant 0 <= i <= |sockets|
        invariant First(Value(), ByConnection(localPort, remoteIp, remotePort), 0)
               == First(Value(), ByConnection(localPort, remoteIp, remotePort), i)
      {
        var k := mem[sockets[i]];
        if k.localPort == localPort && k.remoteIp == remoteIp && k.remotePort == remotePort {
          return Some(sockets[i]);
        }
        i := i + 1;
      }
      return None;
    }

    /** find_socket_listner */
    method FindSocketListener(localPort: nat) returns (r: Option<nat>)
      requires Valid()
      ensures r == Find(Value(), ByListener(localPort))
    {
      var i := 0;
      while i < |sockets|
        invariant 0 <= i <= |sockets|
        invariant First(Value(), ByListener(localPort), 0) == First(Value(), ByListener(localPort), i)
      {
        var k := mem[sockets[i]];
        if k.localPort == localPort && k.state == Listen {
          return Some(sockets[i]);
        }
        i := i + 1;
      }
      return None;
    }

    /** find_socket */
    method FindSocket(num: int) returns (r: Option<nat>)
      requires Valid()
      ensures r == Find(Value(), ByNum(num))
    {
      var i := 0;
      while i < |sockets|
        invariant 0 <= i <= |sockets|
        invariant First(Value(), ByNum(num), 0) == First(Value(), ByNum(num), i)
      {
        if mem[sockets[i]].num == num {
          return Some(sockets[i]);
        }
        i := i + 1;
      }
      return None;
    }

    /** socket() */
    method CreateSocket() returns (num: int)
      requires Valid()
      modifies this
      ensures Valid() && num == UnusedNum(old(Value()), 0) && Value() == NewSocket(old(Value()))
    {
      var i := 0;
      while i < MAX_SOCKETS
        invariant 0 <= i <= MAX_SOCKETS && Value() == old(Value())
        invariant UnusedNum(Value(), 0) == UnusedNum(Value(), i)
      {
        var taken := FindSocket(i);
        if taken == None {
          mem := mem[nextAddr := BlankSocket(i)];
          sockets := sockets + [nextAddr];
          nextAddr := nextAddr + 1;
          return i;
        }
        i := i + 1;
      }
      return -1;
    }

    /** A server's socket(), bind() and listen(); -1 when no number is left. */
    method ListenOn(port: nat) returns (num: int)
      requires Valid()
      modifies this
      ensures Valid() && Value() == OpenListener(old(Value()), port) && num == UnusedNum(old(Value()), 0)
    {
      num := CreateSocket();
      if num != -1 {
        var a := sockets[|sockets| - 1];
        mem := mem[a := mem[a].(localPort := port)];
        mem := mem[a := mem[a].(state := Listen)];
        assert mem == old(mem)[a := BlankSocket(num).(localPort := port, state := Listen)];
      }
    }

    /** remove_socket */
    method RemoveSocket(num: int) returns (removed: bool)
      requires Valid() && Distinct(sockets)
      modifies this
      ensures Valid() && Value() == Remove(old(Value()), num)
    {
      var i := 0;
      while i < |sockets|
        invariant 0 <= i <= |sockets| && Value() == old(Value())
        invariant First(Value(), ByNum(num), 0) == First(Value(), ByNum(num), i)
      {
        if mem[sockets[i]].num == num {
          mem := mem - {sockets[i]};
          sockets := SwapRemoved(sockets, i);
          return true;
        }
        i := i + 1;
      }
      return false;
    }

    /** receive_tcp. `ok` is false where the source would go on with a null socket. */
    method ReceiveTcp(g: Segment) returns (ok: bool)
      requires Valid()
      modifies this
      ensures Valid()
      ensures ok == Receive(old(Value()), g).Some?
      ensures ok ==> Value() == Receive(old(Value()), g).value
    {
      hide OnConnection, OnSyn;
      var c := FindSocketConnection(g.dstPort, g.srcIp, g.srcPort);
      if c.Some? {
        UpdateConnection(c.value, g);
        return true;
      }
      ok := true;
      if g.syn {
        ok := AnswerSyn(g);
      }
    }

    /** The first half of receive_tcp, for the connection found. */
    method UpdateConnection(a: nat, g: Segment)
      requires Valid() && a in mem
      modifies this`mem
      ensures Valid() && Value() == OnConnection(old(Value()), a, g)
    {
      hide AfterFin, Find, First;
      ghost var mem0, k := mem, mem[a];
      if 0 < g.payload < PAYLOAD_LIMIT {
        mem := mem[a := mem[a].(recvSeq := (mem[a].recvSeq + g.payload) % P32)];
        return;
      }
      if g.fin {
        ApplyFin(a, g);
      }
      ghost var k1 := if g.fin then AfterFin(k, g) else k;
      assert mem == mem0[a := k1];
      if g.ackFlag && mem[a].state == FinWait1 {
        mem := mem[a := mem[a].(state := FinWait2)];
      }
      ghost var k2 := if g.ackFlag then AfterAck(k1) else k1;
      assert mem == mem0[a := k2];
      if g.syn && mem[a].state == SynReceived {
        mem := mem[a := mem[a].(recvSeq := (g.seqNo + 1) % P32, sendSeq := FIRST_SEQ)];
        mem := mem[a := mem[a].(sendSeq := mem[a].sendSeq + 1)];
        assert mem == mem0[a := Received(k, g)];
        return;
      }
      HandshakeState(k, g);
      if g.ackFlag && mem[a].state == SynReceived && g.ack == mem[a].sendSeq {
        mem := mem[a := mem[a].(state := Established)];
        assert mem == mem0[a := Received(k, g)];
        Join(a, g.dstPort);
      }
    }

    /** The FIN branch. */
    method ApplyFin(a: nat, g: Segment)
      requires a in mem
      modifies this`mem
      ensures mem == old(mem)[a := AfterFin(old(mem)[a], g)]
    {
      mem := mem[a := mem[a].(recvSeq := (mem[a].recvSeq + 1) % P32)];
      if mem[a].state == FinWait2 {
        mem := mem[a := mem[a].(state := TimeWait)];
      } else if mem[a].state == FinWait1 {
        if g.ackFlag && g.ack == mem[a].sendSeq {
          mem := mem[a := mem[a].(state := TimeWait)];
        } else {
          mem := mem[a := mem[a].(state := Closing)];
        }
      } else if mem[a].state == Established {
        mem := mem[a := mem[a].(state := CloseWait)];
      }
    }

    /** The established connection goes to the listener of its port. */
    method Join(a: nat, port: nat)
      requires Valid() && a in mem
      modifies this`mem
      ensures Valid() && Value() == Enlist(old(Value()), a, port)
    {
      var l := FindSocketListener(port);
      if l.Some? {
        mem := mem[l.value := mem[l.value].(pending := mem[l.value].pending + [a])];
        mem := mem[a := mem[a].(joined := mem[a].joined + 1, waiting := l)];
      }
    }

    /** The second half of receive_tcp. */
    method AnswerSyn(g: Segment) returns (ok: bool)
      requires Valid()
      modifies this
      ensures Valid()
      ensures ok == OnSyn(old(Value()), g).Some?
      ensures ok ==> Value() == OnSyn(old(Value()), g).value
    {
      var l := FindSocketListener(g.dstPort);
      if l.Some? && mem[l.value].state == Listen {
        var num := CreateSocket();
        if num == -1 {
          return false;
        }
        var s := nextAddr - 1;
        mem := mem[s := mem[s].(localPort := g.dstPort, remotePort := g.srcPort, remoteIp := g.srcIp)];
        mem := mem[s := mem[s].(recvSeq := (g.seqNo + 1) % P32, sendSeq := FIRST_SEQ, state := SynReceived)];
        mem := mem[s := mem[s].(sendSeq := mem[s].sendSeq + 1)];
        assert mem[s] == Opened(BlankSocket(num), g);
      }
      return true;
    }

    method AcceptConnection(l: nat) returns (client: Option<nat>)
      requires Valid() && l in mem
      modifies this`mem
      ensures Valid() && (Value(), client) == Accept(old(Value()), l)
    {
      if mem[l].state != Listen || mem[l].pending == [] {
        return None;
      }
      var n := |mem[l].pending|;
      var a := mem[l].pending[n - 1];
      mem := mem[l := mem[l].(pending := mem[l].pending[..n - 1])];
      if a in mem {
        mem := mem[a := mem[a].(waiting := None)];
      }
      return Some(a);
    }

    /** send(): the sequence number of this socket moves on by the length, so a number that
        counts the bytes sent and the FIN goes on counting them; no other socket changes. */
    method SendData(a: nat, len: nat)
      requires Valid() && a in mem
      modifies this`mem
      ensures Valid() && Value() == Send(old(Value()), a, len)
      ensures old(Counts(mem[a])) ==> Counts(mem[a])
      ensures mem.Keys == old(mem.Keys) && forall b :: b in mem && b != a ==> mem[b] == old(mem)[b]
    {
      mem := mem[a := mem[a].(sendSeq := (mem[a].sendSeq + len) % P32, sent := mem[a].sent + len)];
      SendCounts(old(mem)[a], len);
    }

    /** close() of a connection. */
    method CloseConnection(a: nat)
      requires Valid() && Distinct(sockets) && a in mem && mem[a].state != Listen
      modifies this
      ensures Valid() && Value() == CloseOne(old(Value()), a)
    {
      if mem[a].state == Closed {
        return;
      }
      if mem[a].state == Established {
        mem := mem[a := mem[a].(sendSeq := (mem[a].sendSeq + 1) % P32, fins := mem[a].fins + 1)];
        mem := mem[a := mem[a].(state := FinWait1)];
        return;
      }
      var _ := RemoveSocket(mem[a].num);
    }

    /** close() of a listener. */
    method CloseListener(l: nat)
      requires Valid() && Distinct(sockets) && l in mem && mem[l].state == Listen
      modifies this
      ensures Valid() && Value() == CloseListening(old(Value()), l)
    {
      hide CloseOne, Remove;
      var num, pending := mem[l].num, mem[l].pending;
      mem := mem[l := mem[l].(state := Closed)];
      ghost var s0 := Value();
      for i := 0 to |pending|
        invariant Valid() && Distinct(sockets)
        invariant CloseEach(Value(), pending[i..]) == CloseEach(s0, pending)
      {
        assert pending[i..][0] == pending[i] && pending[i..][1..] == pending[i + 1..];
        var a := pending[i];
        if a in mem && mem[a].state != Listen {
          mem := mem[a := mem[a].(waiting := None)];
          CloseConnection(a);
        }
      }
      assert pending[|pending|..] == [];
      var _ := RemoveSocket(num);
    }
  }

  /** The sequence number is 1001 plus the bytes sent plus the FIN, modulo 2^32. */
  predicate Counts(k: Socket) {
    k.sendSeq == (FIRST_SEQ + 1 + k.sent + k.fins) % P32
  }

  lemma SendCounts(k: Socket, len: nat)
    ensures Counts(k) ==> Counts(k.(sendSeq := (k.sendSeq + len) % P32, sent := k.sent + len))
  {
    PlusModulo(FIRST_SEQ + 1 + k.sent + k.fins, len);
  }

  /** A segment touches the handshake only in the state it is in. */
  lemma HandshakeState(k: Socket, g: Segment)
    ensures AfterFin(k, g).state == SynReceived <==> k.state == SynReceived
    ensures AfterAck(k).state == SynReceived <==> k.state == SynReceived
    ensures AfterAck(AfterFin(k, g)).state == SynReceived <==> k.state == SynReceived
    ensures AfterFin(k, g).state != Established
    ensures AfterAck(k).state == Established <==> k.state == Established
  {
  }
}
