/** Whole runs of segments and system calls: what every reachable set of sockets satisfies. */
module TcpRuns {
  import opened Machine
  import opened Tcp
  import opened Vector

  // ----- one socket -----

  /** The socket has a remote end; the others hold address 0 and port 0. */
  predicate Connected(k: Socket) {
    k.remotePort != 0 || k.remoteIp != 0
  }

  /** In each state: how far the numbers are, how many FINs went out, which ends are known. */
  predicate SocketOk(k: Socket) {
    && 0 <= k.num < MAX_SOCKETS
    && k.joined <= 1 && (k.waiting.Some? ==> k.joined == 1)
    && (k.state != Listen ==> k.pending == [])
    && match k.state
       case Listen => !Connected(k) && k.joined == 0 && k.fins == 0
       case SynReceived => Connected(k) && k.sendSeq == FIRST_SEQ + 1 && k.sent == 0 && k.fins == 0 && k.joined == 0
       case Established => Connected(k) && k.fins == 0 && Counts(k)
       case CloseWait => Connected(k) && k.fins == 0 && Counts(k)
       case FinWait1 => Connected(k) && k.fins == 1 && Counts(k)
       case FinWait2 => Connected(k) && k.fins == 1 && Counts(k)
       case Closing => Connected(k) && k.fins == 1 && Counts(k)
       case TimeWait => Connected(k) && k.fins == 1 && Counts(k)
       case _ => false
  }

  /** Where a connection can go; every step climbs. */
  predicate Edge(from: TcpState, to: TcpState) {
    match from
    case SynReceived => to == Established
    case Established => to == FinWait1 || to == CloseWait
    case FinWait1 => to == FinWait2 || to == Closing || to == TimeWait
    case FinWait2 => to == TimeWait
    case _ => false
  }

  function Rank(st: TcpState): nat {
    match st
    case SynReceived => 0
    case Established => 1
    case FinWait1 => 2
    case CloseWait => 2
    case FinWait2 => 3
    case Closing => 3
    case TimeWait => 4
    case _ => 0
  }

  lemma EdgeClimbs(from: TcpState, to: TcpState)
    requires Edge(from, to)
    ensures Rank(from) < Rank(to) && !Edge(to, from)
  {
  }

  /** The fields that name a socket and its connection. */
  predicate SameEnds(k: Socket, k': Socket) {
    k'.num == k.num && k'.localPort == k.localPort && k'.remoteIp == k.remoteIp && k'.remotePort == k.remotePort
  }

  /** The state moves along an edge or not at all, and nothing counted is taken back. */
  predicate Advances(k: Socket, k': Socket) {
    && SameEnds(k, k')
    && (k'.state == k.state || Edge(k.state, k'.state))
    && k'.fins >= k.fins && k'.sent >= k.sent && k'.joined >= k.joined
  }

  lemma ReceivedOk(k: Socket, g: Segment)
    requires SocketOk(k)
    ensures SocketOk(Received(k, g)) && Advances(k, Received(k, g))
    ensures Joins(k, g) ==> g.ackFlag && g.ack == FIRST_SEQ + 1 && k.joined == 0 && k.waiting == None
  {
    hide AfterFin, AfterAck, SocketOk, Advances, Retransmitted, Completes;
    FinOk(k, g);
    var k1 := if g.fin then AfterFin(k, g) else k;
    AdvanceSelf(k);
    AckOk(k1);
    var k2 := if g.ackFlag then AfterAck(k1) else k1;
    EdgesChain(k, g);
    if 0 < g.payload < PAYLOAD_LIMIT {
      RecvOnly(k, (k.recvSeq + g.payload) % P32);
    } else {
      HandshakeState(k, g);
      HandshakeOk(k, k2, g);
    }
  }

  lemma RecvOnly(k: Socket, r: nat)
    requires SocketOk(k)
    ensures SocketOk(k.(recvSeq := r)) && Advances(k, k.(recvSeq := r))
  {
  }

  /** The last two branches: a repeated SYN, and the end of the handshake. */
  lemma HandshakeOk(k: Socket, k2: Socket, g: Segment)
    requires SocketOk(k2) && Advances(k, k2) && (k2.state == SynReceived ==> k.state == SynReceived)
    ensures var again := k2.(recvSeq := (g.seqNo + 1) % P32, sendSeq := FIRST_SEQ + 1);
            Retransmitted(k2, g) ==> again.state == SynReceived && SocketOk(again) && Advances(k, again)
    ensures var done := k2.(state := Established);
            Completes(k2, g) ==> SocketOk(done) && Advances(k, done) && g.ackFlag && g.ack == FIRST_SEQ + 1
                                 && k2.joined == 0 && k2.waiting == None
  {
  }

  lemma FinOk(k: Socket, g: Segment)
    requires SocketOk(k)
    ensures SocketOk(AfterFin(k, g)) && Advances(k, AfterFin(k, g))
    ensures k.state == SynReceived ==> AfterFin(k, g).sendSeq == k.sendSeq
    ensures AfterFin(k, g).joined == k.joined && AfterFin(k, g).waiting == k.waiting
  {
  }

  lemma AckOk(k: Socket)
    requires SocketOk(k)
    ensures SocketOk(AfterAck(k)) && Advances(k, AfterAck(k))
    ensures AfterAck(k).joined == k.joined && AfterAck(k).waiting == k.waiting
  {
  }

  /** A FIN and its acknowledgement together are one edge, not two. */
  lemma EdgesChain(k: Socket, g: Segment)
    requires SocketOk(k)
    ensures Advances(k, AfterAck(AfterFin(k, g)))
  {
    hide SocketOk;
    FinOk(k, g);
  }

  lemma SameHistory(k: Socket, g: Segment)
    ensures Received(k, g).pending == k.pending && Received(k, g).waiting == k.waiting
    ensures Received(k, g).joined == k.joined
  {
  }

  /** The sequence numbers a segment takes up behind the handshake (RFC 9293, SEG.LEN). */
  function SegmentLength(g: Segment): nat {
    g.payload + if g.fin then 1 else 0
  }

  /** The number to be acknowledged next advances by the segment's length exactly when the
      segment has no payload, or a payload short enough and no FIN beside it. */
  lemma RecvAdvances(k: Socket, g: Segment)
    requires k.recvSeq < P32 && g.payload < 0x1_0000 && !Retransmitted(k, g)
    ensures Received(k, g).recvSeq == (k.recvSeq + SegmentLength(g)) % P32
            <==> g.payload == 0 || (g.payload < PAYLOAD_LIMIT && !g.fin)
  {
    HandshakeState(k, g);
    SameModulo(k.recvSeq, SegmentLength(g), if g.fin then 1 else 0);
    SameModulo(k.recvSeq, SegmentLength(g), g.payload);
  }

  lemma SameModulo(x: nat, a: nat, b: nat)
    requires x < P32 && a < P32 && b < P32
    ensures (x + a) % P32 == (x + b) % P32 <==> a == b
  {
  }

  // ----- all sockets -----

  predicate Addressed(s: Stack) {
    && Sound(s) && Distinct(s.sockets)
    && (forall a :: a in s.mem ==> a in s.sockets && a < s.next)
  }

  predicate AllOk(s: Stack) {
    forall a :: a in s.mem ==> SocketOk(s.mem[a])
  }

  predicate SameConnection(k: Socket, m: Socket) {
    m.localPort == k.localPort && m.remoteIp == k.remoteIp && m.remotePort == k.remotePort
  }

  /** They have different numbers and are not the same connection. */
  predicate Apart(k: Socket, m: Socket) {
    k.num != m.num && (Connected(k) ==> !SameConnection(k, m))
  }

  predicate Unique(s: Stack) {
    forall a, b :: a in s.mem && b in s.mem && a != b ==> Apart(s.mem[a], s.mem[b])
  }

  predicate PendingOk(s: Stack, l: nat)
    requires l in s.mem
  {
    && Distinct(s.mem[l].pending)
    && (forall p :: p in s.mem[l].pending ==> p in s.mem && s.mem[p].waiting == Some(l))
  }

  predicate PendingAll(s: Stack) {
    forall l :: l in s.mem ==> PendingOk(s, l)
  }

  predicate Inv(s: Stack) {
    Addressed(s) && AllOk(s) && Unique(s) && PendingAll(s)
  }

  datatype Event = Arrive(segment: Segment) | OpenPort(port: nat) | AcceptOn(listener: nat)
                 | SendOn(socket: nat, len: nat) | CloseOf(socket: nat) | CloseListener(listener: nat)

  /** A connection that its listener has handed out, or that never had one. */
  predicate Accepted(s: Stack, a: nat) {
    a in s.mem && s.mem[a].waiting == None && s.mem[a].state != Listen && s.mem[a].state != SynReceived
  }

  /** A SYN for a listener, of no known connection, when all 128 sockets exist. */
  predicate Blocked(s: Stack, g: Segment)
    requires Sound(s)
  {
    && g.syn && |s.sockets| == MAX_SOCKETS
    && Find(s, ByConnection(g.dstPort, g.srcIp, g.srcPort)).None? && Find(s, ByListener(g.dstPort)).Some?
  }

  /** Segments are not blocked; send and close are used on accepted connections. */
  predicate Enabled(s: Stack, e: Event)
    requires Sound(s)
  {
    match e
    case Arrive(g) => !Blocked(s, g)
    case OpenPort(_) => true
    case AcceptOn(l) => l in s.mem
    case SendOn(a, _) => Accepted(s, a)
    case CloseOf(a) => Accepted(s, a)
    case CloseListener(l) => Distinct(s.sockets) && l in s.mem && s.mem[l].state == Listen
  }

  function Next(s: Stack, e: Event): Stack
    requires Sound(s) && Enabled(s, e)
  {
    match e
    case Arrive(g) => var r := Receive(s, g); if r.Some? then r.value else s
    case OpenPort(port) => OpenListener(s, port)
    case AcceptOn(l) => Accept(s, l).0
    case SendOn(a, len) => Send(s, a, len)
    case CloseOf(a) => CloseOne(s, a)
    case CloseListener(l) => CloseListening(s, l)
  }

  /** Every socket that is still there has advanced. */
  predicate Forward(s: Stack, s': Stack) {
    forall a :: a in s.mem && a in s'.mem ==> Advances(s.mem[a], s'.mem[a])
  }

  /** Only a segment with ack 1001 can have put a connection on a pending list. */
  predicate JoinedBy(s: Stack, e: Event, s': Stack) {
    forall a :: a in s.mem && a in s'.mem && s'.mem[a].joined != s.mem[a].joined ==>
      && s.mem[a].state == SynReceived && s'.mem[a].joined == s.mem[a].joined + 1
      && e.Arrive? && e.segment.ackFlag && e.segment.ack == FIRST_SEQ + 1
  }

  /** New sockets have new addresses and have joined nothing. */
  predicate FreshOnes(s: Stack, s': Stack) {
    s.next <= s'.next && forall a :: a in s'.mem && a !in s.mem ==> s'.mem[a].joined == 0 && s.next <= a
  }

  predicate Moves(s: Stack, e: Event, s': Stack) {
    Forward(s, s') && JoinedBy(s, e, s') && FreshOnes(s, s')
  }

  // ----- when the numbers run out -----

  function Range(n: nat): (r: set<int>)
    ensures |r| == n && forall x :: x in r <==> 0 <= x < n
  {
    if n == 0 then {} else Range(n - 1) + {n - 1}
  }

  function Elements(v: seq<int>): (r: set<int>)
    ensures forall x :: x in r <==> x in v
  {
    if v == [] then {} else
    assert v == v[..|v| - 1] + [v[|v| - 1]];
    Elements(v[..|v| - 1]) + {v[|v| - 1]}
  }

  lemma {:induction false} ElementCount(v: seq<int>)
    requires forall i, j :: 0 <= i < j < |v| ==> v[i] != v[j]
    ensures |Elements(v)| == |v|
    decreases |v|
  {
    if v != [] {
      var n := |v| - 1;
      ElementCount(v[..n]);
      assert v[n] !in v[..n];
    }
  }

  lemma SubsetCount(a: set<int>, b: set<int>)
    requires a <= b
    ensures |a| <= |b| && (|a| == |b| <==> a == b)
  {
    assert b == a + (b - a);
  }

  /** Distinct numbers below n: at most n of them, and n of them exactly when all occur. */
  lemma Pigeonhole(v: seq<int>, n: nat)
    requires forall i, j :: 0 <= i < j < |v| ==> v[i] != v[j]
    requires forall i :: 0 <= i < |v| ==> 0 <= v[i] < n
    ensures |v| <= n && (|v| == n <==> forall x :: 0 <= x < n ==> x in v)
  {
    var all := Elements(v);
    ElementCount(v);
    SubsetCount(all, Range(n));
    if forall x :: 0 <= x < n ==> x in v {
      assert all == Range(n);
    }
    if |v| == n {
      forall x | 0 <= x < n
        ensures x in v
      {
        assert x in Range(n) && x in all;
      }
    }
  }

  function Numbers(s: Stack): (v: seq<int>)
    requires Sound(s)
    ensures |v| == |s.sockets| && forall i :: 0 <= i < |v| ==> v[i] == s.mem[s.sockets[i]].num
  {
    seq(|s.sockets|, i requires 0 <= i < |s.sockets| => s.mem[s.sockets[i]].num)
  }

  lemma NumbersDistinct(s: Stack)
    requires Inv(s)
    ensures forall i, j :: 0 <= i < j < |s.sockets| ==> Numbers(s)[i] != Numbers(s)[j]
    ensures forall i :: 0 <= i < |s.sockets| ==> 0 <= Numbers(s)[i] < MAX_SOCKETS
  {
    hide PendingAll, Numbers;
    forall i, j | 0 <= i < j < |s.sockets|
      ensures Numbers(s)[i] != Numbers(s)[j]
    {
      assert s.sockets[i] != s.sockets[j];
      assert Apart(s.mem[s.sockets[i]], s.mem[s.sockets[j]]);
    }
    forall i | 0 <= i < |s.sockets|
      ensures 0 <= Numbers(s)[i] < MAX_SOCKETS
    {
      assert SocketOk(s.mem[s.sockets[i]]);
    }
  }

  lemma {:induction false} UnusedNumIs(s: Stack, i: nat)
    requires Sound(s) && i <= MAX_SOCKETS
    ensures UnusedNum(s, i) == -1 <==> forall k :: i <= k < MAX_SOCKETS ==> k in Numbers(s)
    decreases MAX_SOCKETS - i
  {
    hide Find;
    if i < MAX_SOCKETS {
      NumTaken(s, i);
      UnusedNumIs(s, i + 1);
    }
  }

  lemma NumTaken(s: Stack, num: nat)
    requires Sound(s)
    ensures Find(s, ByNum(num)).Some? <==> num in Numbers(s)
  {
    hide First;
    var i := First(s, ByNum(num), 0);
    if i < |s.sockets| {
      assert Numbers(s)[i] == num;
    } else {
      forall j | 0 <= j < |s.sockets|
        ensures Numbers(s)[j] != num
      {
        assert !Matches(s.mem[s.sockets[j]], ByNum(num));
      }
    }
  }

  /** There are never more than 128 sockets, and no number is left exactly at 128. */
  lemma NumbersRunOut(s: Stack)
    requires Inv(s)
    ensures Sound(s) && |s.sockets| <= MAX_SOCKETS
    ensures UnusedNum(s, 0) == -1 <==> |s.sockets| == MAX_SOCKETS
  {
    hide Inv, Numbers, UnusedNum;
    SoundInv(s);
    NumbersDistinct(s);
    Pigeonhole(Numbers(s), MAX_SOCKETS);
    UnusedNumIs(s, 0);
  }

  /** receive_tcp goes on with a null socket exactly for a blocked segment. */
  lemma NullExactly(s: Stack, g: Segment)
    requires Inv(s)
    ensures Sound(s) && (Receive(s, g).None? <==> Blocked(s, g))
  {
    hide Inv, Find, UnusedNum, OnConnection, NewSocket;
    NumbersRunOut(s);
  }

  // ----- how the steps keep the invariant -----

  /** The same sockets at the same addresses. */
  predicate SameSockets(s: Stack, s': Stack) {
    && s'.sockets == s.sockets && s'.next == s.next && s'.mem.Keys == s.mem.Keys
    && (forall a :: a in s.mem ==> SameEnds(s.mem[a], s'.mem[a]))
  }

  lemma SameSocketsKeep(s: Stack, s': Stack)
    requires Addressed(s) && Unique(s) && SameSockets(s, s')
    ensures Addressed(s') && Unique(s')
  {
    forall a, b | a in s'.mem && b in s'.mem && a != b
      ensures Apart(s'.mem[a], s'.mem[b])
    {
      assert Apart(s.mem[a], s.mem[b]);
    }
  }

  /** The pending lists stay right when no list changes and no socket changes whose list it is on. */
  lemma SameListsKeep(s: Stack, s': Stack)
    requires PendingAll(s)
    requires forall a :: a in s'.mem && a in s.mem ==>
      s'.mem[a].pending == s.mem[a].pending && s'.mem[a].waiting == s.mem[a].waiting
    requires forall a :: a in s'.mem && a !in s.mem ==> s'.mem[a].pending == []
    requires forall a :: a in s.mem && s.mem[a].waiting.Some? ==> a in s'.mem
    ensures PendingAll(s')
  {
    forall l | l in s'.mem
      ensures PendingOk(s', l)
    {
      assert l in s.mem ==> PendingOk(s, l);
    }
  }

  /** One socket replaced by another with the same ends and the same pending list. */
  lemma ReplaceKeeps(s: Stack, a: nat, k: Socket)
    requires Inv(s) && a in s.mem && SocketOk(k) && SameEnds(s.mem[a], k)
    requires k.pending == s.mem[a].pending && k.waiting == s.mem[a].waiting
    ensures Inv(s.(mem := s.mem[a := k]))
  {
    hide SocketOk, Addressed, Unique, PendingAll;
    var s' := s.(mem := s.mem[a := k]);
    SameSocketsKeep(s, s');
    SameListsKeep(s, s');
  }

  lemma EnlistKeeps(s: Stack, a: nat, port: nat)
    requires Inv(s) && a in s.mem && s.mem[a].state == Established
    requires s.mem[a].joined == 0 && s.mem[a].waiting == None
    ensures Inv(Enlist(s, a, port))
  {
    hide Find, SocketOk, Unique, PendingAll;
    var l := Find(s, ByListener(port));
    var s' := Enlist(s, a, port);
    FindListens(s, port);
    if l.Some? {
      EnlistIs(s, a, port);
      SameSocketsKeep(s, s');
      EnlistPending(s, a, l.value);
      forall b | b in s'.mem
        ensures SocketOk(s'.mem[b])
      {
        EnlistOk(s.mem[b], a, l.value);
      }
    }
  }

  /** a put at the end of l's list. */
  function Listed(s: Stack, a: nat, l: nat): Stack
    requires a in s.mem && l in s.mem
  {
    var m := s.mem[l := s.mem[l].(pending := s.mem[l].pending + [a])];
    s.(mem := m[a := m[a].(joined := m[a].joined + 1, waiting := Some(l))])
  }

  lemma EnlistIs(s: Stack, a: nat, port: nat)
    requires Sound(s) && a in s.mem && Find(s, ByListener(port)).Some?
    ensures Enlist(s, a, port) == Listed(s, a, Find(s, ByListener(port)).value)
    ensures SameSockets(s, Enlist(s, a, port))
  {
    hide Find;
  }

  lemma EnlistPending(s: Stack, a: nat, l: nat)
    requires PendingAll(s) && a in s.mem && l in s.mem && a != l && s.mem[a].waiting == None
    ensures PendingAll(Listed(s, a, l))
  {
    var s' := Listed(s, a, l);
    forall m | m in s'.mem
      ensures PendingOk(s', m)
    {
      assert PendingOk(s, m);
    }
  }

  lemma FindListens(s: Stack, port: nat)
    requires Sound(s)
    ensures var l := Find(s, ByListener(port)); l.Some? ==> l.value in s.mem && s.mem[l.value].state == Listen
  {
    hide Find;
  }

  lemma EnlistOk(k: Socket, a: nat, l: nat)
    requires SocketOk(k)
    ensures k.state == Listen ==> SocketOk(k.(pending := k.pending + [a]))
    ensures k.state == Established && k.joined == 0 ==> SocketOk(k.(joined := k.joined + 1, waiting := Some(l)))
  {
  }

  /** A new socket with an unused number and an unused address. */
  lemma InsertKeeps(s: Stack, k: Socket)
    requires Inv(s) && SocketOk(k) && k.pending == []
    requires Find(s, ByNum(k.num)).None?
    requires Connected(k) ==> Find(s, ByConnection(k.localPort, k.remoteIp, k.remotePort)).None?
    ensures Inv(Stack(s.mem[s.next := k], s.sockets + [s.next], s.next + 1))
  {
    hide SocketOk, Unique, PendingAll, Find;
    var s' := Stack(s.mem[s.next := k], s.sockets + [s.next], s.next + 1);
    forall i, j | 0 <= i < j < |s'.sockets|
      ensures s'.sockets[i] != s'.sockets[j]
    {
      assert s.sockets[i] in s.mem;
    }
    forall a | a in s'.mem
      ensures a in s'.sockets
    {
      assert a != s.next ==> a in s.sockets;
      assert s'.sockets[|s.sockets|] == s.next;
    }
    InsertUnique(s, k);
    SameListsKeep(s, s');
  }

  lemma InsertUnique(s: Stack, k: Socket)
    requires Addressed(s) && Unique(s)
    requires Find(s, ByNum(k.num)).None?
    requires Connected(k) ==> Find(s, ByConnection(k.localPort, k.remoteIp, k.remotePort)).None?
    ensures Unique(Stack(s.mem[s.next := k], s.sockets + [s.next], s.next + 1))
  {
    hide Find;
    forall a | a in s.mem
      ensures Apart(s.mem[a], k) && Apart(k, s.mem[a])
    {
      assert a in s.sockets;
      assert !Matches(s.mem[a], ByNum(k.num));
      assert Connected(k) ==> !Matches(s.mem[a], ByConnection(k.localPort, k.remoteIp, k.remotePort));
    }
  }

  lemma RemoveKeeps(s: Stack, a: nat)
    requires Inv(s) && a in s.mem && s.mem[a].waiting == None
    ensures Inv(Remove(s, s.mem[a].num))
    ensures Remove(s, s.mem[a].num).mem == s.mem - {a} && Remove(s, s.mem[a].num).next == s.next
  {
    hide SocketOk, Unique, PendingAll, First, SwapRemoved;
    var i := FirstIs(s, a);
    var s' := Remove(s, s.mem[a].num);
    SwapRemoveIs(s.sockets, i);
    RemoveUnique(s, a, s');
    SameListsKeep(s, s');
    forall k | 0 <= k < |s'.sockets|
      ensures s'.sockets[k] in s'.mem
    {
      assert s'.sockets[k] in s'.sockets;
    }
  }

  /** Numbers being distinct, the first socket with a's number is a. */
  lemma FirstIs(s: Stack, a: nat) returns (i: nat)
    requires Addressed(s) && Unique(s) && a in s.mem
    ensures i == First(s, ByNum(s.mem[a].num), 0) && i < |s.sockets| && s.sockets[i] == a
  {
    hide First;
    i := First(s, ByNum(s.mem[a].num), 0);
    var j :| 0 <= j < |s.sockets| && s.sockets[j] == a;
    assert Matches(s.mem[s.sockets[j]], ByNum(s.mem[a].num));
    assert i < |s.sockets| && Matches(s.mem[s.sockets[i]], ByNum(s.mem[a].num));
    NumNames(s, s.sockets[i], a);
  }

  lemma NumNames(s: Stack, a: nat, b: nat)
    requires Unique(s) && a in s.mem && b in s.mem && s.mem[a].num == s.mem[b].num
    ensures a == b
  {
  }

  lemma RemoveUnique(s: Stack, a: nat, s': Stack)
    requires Unique(s) && s'.mem == s.mem - {a}
    ensures Unique(s')
  {
    forall b, c | b in s'.mem && c in s'.mem && b != c
      ensures Apart(s'.mem[b], s'.mem[c])
    {
      assert Apart(s.mem[b], s.mem[c]);
    }
  }

  lemma SwapRemoveIs(v: seq<nat>, i: nat)
    requires Distinct(v) && i < |v|
    ensures Distinct(SwapRemoved(v, i))
    ensures forall x :: x in SwapRemoved(v, i) <==> x in v && x != v[i]
  {
    var r := SwapRemoved(v, i);
    forall x | x in v && x != v[i]
      ensures x in r
    {
      var j :| 0 <= j < |v| && v[j] == x;
      if j < |v| - 1 {
        assert r[j] == x;
      } else {
        assert r[i] == x;
      }
    }
    forall x | x in r
      ensures x in v && x != v[i]
    {
      var j :| 0 <= j < |r| && r[j] == x;
    }
  }

  lemma ArriveKeeps(s: Stack, g: Segment)
    requires Inv(s) && Enabled(s, Arrive(g))
    ensures Inv(Next(s, Arrive(g))) && Moves(s, Arrive(g), Next(s, Arrive(g)))
  {
    hide Inv, Moves, Find, OnConnection, OnSyn, Blocked;
    SoundInv(s);
    NullExactly(s, g);
    var c := Find(s, ByConnection(g.dstPort, g.srcIp, g.srcPort));
    if c.Some? {
      ConnectionKeeps(s, c.value, g);
    } else if g.syn {
      SynKeeps(s, g);
    } else {
      StillMoves(s, Arrive(g));
    }
  }

  lemma SoundInv(s: Stack)
    requires Inv(s)
    ensures Sound(s)
  {
    hide AllOk, Unique, PendingAll;
  }

  lemma StillMoves(s: Stack, e: Event)
    ensures Moves(s, e, s)
  {
  }

  lemma ConnectionKeeps(s: Stack, a: nat, g: Segment)
    requires Inv(s) && a in s.mem
    ensures Inv(OnConnection(s, a, g)) && Moves(s, Arrive(g), OnConnection(s, a, g))
  {
    hide SocketOk, Received, Find, Unique, PendingAll, Advances, Enlist;
    var k := s.mem[a];
    var s1 := s.(mem := s.mem[a := Received(k, g)]);
    ReceivedOk(k, g);
    SameHistory(k, g);
    AdvanceEnds(k, Received(k, g));
    ReplaceKeeps(s, a, Received(k, g));
    forall b | b in s.mem
      ensures Advances(s.mem[b], s1.mem[b])
    {
      AdvanceSelf(s.mem[b]);
    }
    if Joins(k, g) {
      EnlistKeeps(s1, a, g.dstPort);
      EnlistMoves(s, s1, a, g);
    }
  }

  lemma AdvanceEnds(k: Socket, k': Socket)
    requires Advances(k, k')
    ensures SameEnds(k, k')
  {
  }

  lemma AdvanceSelf(k: Socket)
    ensures Advances(k, k)
  {
  }

  lemma EnlistMoves(s: Stack, s1: Stack, a: nat, g: Segment)
    requires Sound(s1) && a in s.mem && a in s1.mem
    requires s1.mem[a].state == Established && s1.mem[a].joined == s.mem[a].joined
    requires s.mem[a].state == SynReceived && g.ackFlag && g.ack == FIRST_SEQ + 1
    requires Forward(s, s1) && s1.mem == s.mem[a := s1.mem[a]] && s1.next == s.next
    ensures Moves(s, Arrive(g), Enlist(s1, a, g.dstPort))
  {
    hide Find, Sound;
    FindListens(s1, g.dstPort);
    var l := Find(s1, ByListener(g.dstPort));
    if l.Some? {
      EnlistIs(s1, a, g.dstPort);
      var s' := Listed(s1, a, l.value);
      assert forall b :: b in s'.mem <==> b in s.mem;
      forall b | b in s.mem
        ensures Advances(s.mem[b], s'.mem[b])
      {
        assert Advances(s.mem[b], s1.mem[b]);
      }
    }
  }

  lemma SynKeeps(s: Stack, g: Segment)
    requires Inv(s) && OnSyn(s, g).Some?
    requires Find(s, ByConnection(g.dstPort, g.srcIp, g.srcPort)).None?
    ensures Inv(OnSyn(s, g).value) && Moves(s, Arrive(g), OnSyn(s, g).value)
  {
    hide SocketOk, Find, UnusedNum, Unique, PendingAll, Moves;
    if Find(s, ByListener(g.dstPort)).Some? {
      var num := UnusedNum(s, 0);
      SynConnects(s, g);
      OpenedOk(num, g);
      assert OnSyn(s, g).value.mem == s.mem[s.next := Opened(BlankSocket(num), g)];
      InsertKeeps(s, Opened(BlankSocket(num), g));
      InsertMoves(s, Arrive(g), Opened(BlankSocket(num), g));
    } else {
      StillMoves(s, Arrive(g));
    }
  }

  /** A SYN from address 0 and port 0 would have been taken for the listener's own. */
  lemma SynConnects(s: Stack, g: Segment)
    requires Inv(s) && Find(s, ByListener(g.dstPort)).Some?
    requires Find(s, ByConnection(g.dstPort, g.srcIp, g.srcPort)).None?
    ensures g.srcIp != 0 || g.srcPort != 0
  {
    hide Addressed, Unique, PendingAll, Find;
    var l := Find(s, ByListener(g.dstPort)).value;
    assert SocketOk(s.mem[l]);
    assert !Matches(s.mem[l], ByConnection(g.dstPort, g.srcIp, g.srcPort));
  }

  /** A segment from address 0 and port 0 reaches listeners only: it opens nothing, closes
      nothing and completes no handshake. */
  lemma ZeroReachesListeners(s: Stack, g: Segment)
    requires Inv(s) && g.srcIp == 0 && g.srcPort == 0
    ensures Sound(s) && Receive(s, g).Some?
    ensures var s' := Receive(s, g).value;
            && s'.sockets == s.sockets && s'.mem.Keys == s.mem.Keys
            && forall a :: a in s.mem ==>
                 s'.mem[a] == s.mem[a] || (s.mem[a].state == Listen && s'.mem[a] == s.mem[a].(recvSeq := s'.mem[a].recvSeq))
  {
    hide Inv, Find, Enlist;
    SoundInv(s);
    var c := Find(s, ByConnection(g.dstPort, 0, 0));
    if c.Some? {
      UnconnectedListens(s, c.value);
      ListenerTakes(s.mem[c.value], g);
    } else if g.syn && Find(s, ByListener(g.dstPort)).Some? {
      SynConnects(s, g);
    }
  }

  lemma UnconnectedListens(s: Stack, a: nat)
    requires Inv(s) && a in s.mem && !Connected(s.mem[a])
    ensures s.mem[a].state == Listen
  {
    hide Addressed, Unique, PendingAll;
    assert SocketOk(s.mem[a]);
  }

  lemma ListenerTakes(k: Socket, g: Segment)
    requires k.state == Listen
    ensures Received(k, g) == k.(recvSeq := Received(k, g).recvSeq) && !Joins(k, g)
  {
  }

  lemma InsertMoves(s: Stack, e: Event, k: Socket)
    requires Addressed(s) && k.joined == 0
    ensures Moves(s, e, Stack(s.mem[s.next := k], s.sockets + [s.next], s.next + 1))
  {
  }

  lemma OpenedOk(num: int, g: Segment)
    requires 0 <= num < MAX_SOCKETS && (g.srcIp != 0 || g.srcPort != 0)
    ensures SocketOk(Opened(BlankSocket(num), g))
  {
  }

  function ListenerOn(num: int, port: nat): Socket {
    BlankSocket(num).(localPort := port, state := Listen)
  }

  lemma ListenerOk(num: int, port: nat)
    requires 0 <= num < MAX_SOCKETS
    ensures SocketOk(ListenerOn(num, port))
  {
  }

  lemma OpenPortKeeps(s: Stack, port: nat)
    requires Inv(s)
    ensures Inv(OpenListener(s, port)) && Moves(s, OpenPort(port), OpenListener(s, port))
  {
    hide SocketOk, Find, UnusedNum, Unique, PendingAll, Moves;
    var num := UnusedNum(s, 0);
    if num != -1 {
      ListenerOk(num, port);
      assert OpenListener(s, port).mem == s.mem[s.next := ListenerOn(num, port)];
      InsertKeeps(s, ListenerOn(num, port));
      InsertMoves(s, OpenPort(port), ListenerOn(num, port));
    } else {
      StillMoves(s, OpenPort(port));
    }
  }

  /** The last connection taken off l's list. */
  function Taken(s: Stack, l: nat): Stack
    requires l in s.mem && s.mem[l].pending != []
  {
    var n := |s.mem[l].pending| - 1;
    var a := s.mem[l].pending[n];
    var m := s.mem[l := s.mem[l].(pending := s.mem[l].pending[..n])];
    s.(mem := if a in m then m[a := m[a].(waiting := None)] else m)
  }

  lemma AcceptKeeps(s: Stack, l: nat)
    requires Inv(s) && l in s.mem
    ensures Inv(Accept(s, l).0) && Moves(s, AcceptOn(l), Accept(s, l).0)
  {
    hide SocketOk, Addressed, Unique, PendingAll, Moves;
    if s.mem[l].state == Listen && s.mem[l].pending != [] {
      var s' := Taken(s, l);
      assert Accept(s, l).0 == s';
      WaitingElsewhere(s, l);
      TakenPending(s, l);
      TakenMoves(s, l);
      SameSocketsKeep(s, s');
      forall b | b in s'.mem
        ensures SocketOk(s'.mem[b])
      {
        TakenOk(s.mem[b]);
      }
    } else {
      StillMoves(s, AcceptOn(l));
    }
  }

  /** A listener is on nobody's list, not its own either. */
  lemma WaitingElsewhere(s: Stack, l: nat)
    requires PendingAll(s) && AllOk(s) && l in s.mem && s.mem[l].state == Listen && s.mem[l].pending != []
    ensures s.mem[l].pending[|s.mem[l].pending| - 1] in s.mem
    ensures s.mem[l].pending[|s.mem[l].pending| - 1] != l
  {
    assert SocketOk(s.mem[l]) && PendingOk(s, l);
  }

  lemma TakenOk(k: Socket)
    requires SocketOk(k)
    ensures SocketOk(k.(waiting := None))
    ensures k.state == Listen && k.pending != [] ==> SocketOk(k.(pending := k.pending[..|k.pending| - 1]))
  {
  }

  lemma TakenPending(s: Stack, l: nat)
    requires PendingAll(s) && l in s.mem && s.mem[l].pending != []
    requires s.mem[l].pending[|s.mem[l].pending| - 1] in s.mem && s.mem[l].pending[|s.mem[l].pending| - 1] != l
    ensures PendingAll(Taken(s, l))
  {
    var n := |s.mem[l].pending| - 1;
    var a := s.mem[l].pending[n];
    var s' := Taken(s, l);
    assert PendingOk(s, l) && a in s.mem[l].pending;
    forall m | m in s'.mem
      ensures PendingOk(s', m)
    {
      assert PendingOk(s, m);
      TakenList(s.mem[l].pending);
    }
  }

  lemma TakenList(v: seq<nat>)
    requires Distinct(v) && v != []
    ensures Distinct(v[..|v| - 1]) && v[|v| - 1] !in v[..|v| - 1]
    ensures forall x :: x in v[..|v| - 1] ==> x in v
  {
  }

  lemma TakenMoves(s: Stack, l: nat)
    requires l in s.mem && s.mem[l].pending != []
    requires s.mem[l].pending[|s.mem[l].pending| - 1] in s.mem && s.mem[l].pending[|s.mem[l].pending| - 1] != l
    ensures SameSockets(s, Taken(s, l)) && Moves(s, AcceptOn(l), Taken(s, l))
  {
  }

  lemma SendKeeps(s: Stack, a: nat, len: nat)
    requires Inv(s) && Accepted(s, a)
    ensures Inv(Send(s, a, len)) && Moves(s, SendOn(a, len), Send(s, a, len))
    ensures Send(s, a, len).mem[a].sent == s.mem[a].sent + len
    ensures Send(s, a, len) == s.(mem := s.mem[a := Send(s, a, len).mem[a]])
  {
    hide Addressed, Unique, PendingAll, SocketOk;
    SendOk(s.mem[a], len);
    ReplaceKeeps(s, a, Send(s, a, len).mem[a]);
  }

  lemma SendOk(k: Socket, len: nat)
    requires SocketOk(k) && k.state != Listen && k.state != SynReceived
    ensures SocketOk(k.(sendSeq := (k.sendSeq + len) % P32, sent := k.sent + len))
  {
    SendCounts(k, len);
  }

  lemma CloseKeeps(s: Stack, a: nat)
    requires Inv(s) && Accepted(s, a)
    ensures Inv(CloseOne(s, a)) && Moves(s, CloseOf(a), CloseOne(s, a))
  {
    hide Addressed, Unique, PendingAll, SocketOk, Remove;
    SoundInv(s);
    CloseOk(s.mem[a]);
    if s.mem[a].state == Established {
      ReplaceKeeps(s, a, CloseOne(s, a).mem[a]);
    } else {
      RemoveKeeps(s, a);
    }
  }

  lemma CloseOk(k: Socket)
    requires SocketOk(k)
    ensures k.state != Closed
    ensures k.state == Established ==>
              SocketOk(k.(sendSeq := (k.sendSeq + 1) % P32, state := FinWait1, fins := k.fins + 1))
  {
    PlusModulo(FIRST_SEQ + 1 + k.sent + k.fins, 1);
  }

  // ----- closing a listener -----

  /** s with the listener's record as it was, and v left on its list. */
  function Virtual(s: Stack, l: nat, k: Socket, v: seq<nat>): Stack {
    s.(mem := s.mem[l := k.(pending := v)])
  }

  lemma {:induction false} SameFirst(s: Stack, s': Stack, num: int, i: nat)
    requires Sound(s) && Sound(s') && s'.sockets == s.sockets && i <= |s.sockets|
    requires forall a :: a in s.mem && a in s'.mem ==> s'.mem[a].num == s.mem[a].num
    ensures First(s', ByNum(num), i) == First(s, ByNum(num), i)
    decreases |s.sockets| - i
  {
    if i < |s.sockets| {
      SameFirst(s, s', num, i + 1);
    }
  }

  /** What is on a list has finished its handshake, and its own record waits for that list. */
  lemma OnList(s: Stack, l: nat, a: nat)
    requires Inv(s) && l in s.mem && s.mem[l].state == Listen && a in s.mem[l].pending
    ensures a in s.mem && a != l && s.mem[a].waiting == Some(l)
    ensures s.mem[a].state != Listen && s.mem[a].state != SynReceived
  {
    hide Addressed, Unique;
    assert PendingOk(s, l) && SocketOk(s.mem[l]) && SocketOk(s.mem[a]);
  }

  /** The first connection taken off the list. */
  lemma FrontKeeps(s: Stack, l: nat, k: Socket, v: seq<nat>)
    requires l in s.mem && k.state == Listen && v != [] && Inv(Virtual(s, l, k, v))
    ensures v[0] in s.mem && v[0] != l && s.mem[v[0]].state != Listen && s.mem[v[0]].state != SynReceived
    ensures Inv(Virtual(s.(mem := s.mem[v[0] := s.mem[v[0]].(waiting := None)]), l, k, v[1..]))
  {
    hide SocketOk, Addressed, Unique, PendingAll;
    var a := v[0];
    var w := Virtual(s, l, k, v);
    OnList(w, l, a);
    var w' := Virtual(s.(mem := s.mem[a := s.mem[a].(waiting := None)]), l, k, v[1..]);
    SameSocketsKeep(w, w');
    FrontPending(w, w', l, v);
    forall b | b in w'.mem
      ensures SocketOk(w'.mem[b])
    {
      assert SocketOk(w.mem[b]);
      FrontOk(w.mem[b], v[1..]);
    }
  }

  lemma FrontOk(k: Socket, v: seq<nat>)
    requires SocketOk(k)
    ensures SocketOk(k.(waiting := None))
    ensures k.state == Listen ==> SocketOk(k.(pending := v))
  {
  }

  lemma FrontPending(w: Stack, w': Stack, l: nat, v: seq<nat>)
    requires PendingAll(w) && l in w.mem && v != [] && v[0] in w.mem && v[0] != l && w.mem[l].pending == v
    requires w'.mem == w.mem[v[0] := w.mem[v[0]].(waiting := None)][l := w.mem[l].(pending := v[1..])]
    ensures PendingAll(w')
  {
    assert PendingOk(w, l);
    FrontList(v);
    forall m | m in w'.mem
      ensures PendingOk(w', m)
    {
      assert PendingOk(w, m);
    }
  }

  lemma FrontList(v: seq<nat>)
    requires Distinct(v) && v != []
    ensures Distinct(v[1..]) && v[0] !in v[1..] && forall x :: x in v[1..] ==> x in v
  {
  }

  /** Closing a connection changes its record or removes it, whatever the listener's record. */
  lemma CloseOneIs(s: Stack, l: nat, k: Socket, v: seq<nat>, a: nat)
    requires Sound(s) && l in s.mem && a in s.mem && a != l && k.num == s.mem[l].num
    requires Inv(Virtual(s, l, k, v)) && s.mem[a].state != Listen
    ensures var t := CloseOne(s, a);
            && l in t.mem && t.mem[l] == s.mem[l] && t.next == s.next
            && CloseOne(Virtual(s, l, k, v), a) == Virtual(t, l, k, v)
            && (forall b :: b in t.mem ==> b in s.mem)
            && (forall b :: b in s.mem && b != a ==> b in t.mem && t.mem[b] == s.mem[b])
            && (a in t.mem ==> s.mem[a].state == Established && Advances(s.mem[a], t.mem[a]) && t.mem[a].joined == s.mem[a].joined)
  {
    hide Inv, First, Sound, SwapRemoved, SocketOk;
    var w := Virtual(s, l, k, v);
    SoundInv(w);
    NotClosed(w, a);
    if s.mem[a].state == Established {
      var k' := s.mem[a].(sendSeq := (s.mem[a].sendSeq + 1) % P32, state := FinWait1, fins := s.mem[a].fins + 1);
      assert w.mem[a := k'] == s.mem[a := k'][l := k.(pending := v)];
    } else {
      SameFirst(s, w, s.mem[a].num, 0);
      InvParts(w);
      var i := FirstIs(w, a);
      assert w.mem - {a} == (s.mem - {a})[l := k.(pending := v)];
    }
  }

  lemma InvParts(s: Stack)
    requires Inv(s)
    ensures Addressed(s) && Unique(s)
  {
  }

  lemma NotClosed(s: Stack, a: nat)
    requires Inv(s) && a in s.mem
    ensures s.mem[a].state != Closed
  {
    hide Addressed, Unique, PendingAll;
    assert SocketOk(s.mem[a]);
  }

  /** What closing the connections v does to the sockets: the others stay as they are. */
  ghost predicate ClosedOnly(s: Stack, t: Stack, v: seq<nat>) {
    && t.next == s.next && (forall a :: a in t.mem ==> a in s.mem)
    && (forall a :: a in s.mem && a !in v ==> a in t.mem && t.mem[a] == s.mem[a])
    && (forall a :: a in t.mem && a in v ==> Advances(s.mem[a], t.mem[a]) && t.mem[a].joined == s.mem[a].joined)
  }

  /** One round of the loop. */
  lemma PendingStep(s: Stack, l: nat, k: Socket, v: seq<nat>)
    requires Sound(s) && Distinct(s.sockets) && l in s.mem && k.state == Listen && k.num == s.mem[l].num && v != []
    requires Inv(Virtual(s, l, k, v))
    ensures var t := ClosePending(s, v[0]);
            && l in t.mem && t.mem[l] == s.mem[l] && Inv(Virtual(t, l, k, v[1..]))
            && v[0] in s.mem && v[0] != l && v[0] !in v[1..] && ClosedOnly(s, t, [v[0]])
  {
    hide Inv, CloseOne, SocketOk, Sound, Moves, Edge;
    FrontKeeps(s, l, k, v);
    var a := v[0];
    var s1 := s.(mem := s.mem[a := s.mem[a].(waiting := None)]);
    var w1 := Virtual(s1, l, k, v[1..]);
    SoundInv(w1);
    SoundStays(s, s1);
    CloseKeeps(w1, a);
    CloseOneIs(s1, l, k, v[1..], a);
    FrontOnce(s, l, k, v);
  }

  lemma SoundStays(s: Stack, s1: Stack)
    requires Sound(s) && s1.sockets == s.sockets && s1.mem.Keys == s.mem.Keys
    ensures Sound(s1)
  {
  }

  lemma FrontOnce(s: Stack, l: nat, k: Socket, v: seq<nat>)
    requires l in s.mem && v != [] && Inv(Virtual(s, l, k, v))
    ensures v[0] !in v[1..]
  {
    hide Addressed, Unique, AllOk;
    var w := Virtual(s, l, k, v);
    assert PendingOk(w, l);
    FrontList(v);
  }

  lemma {:induction false} EachKeeps(s: Stack, l: nat, k: Socket, v: seq<nat>)
    requires Sound(s) && Distinct(s.sockets) && l in s.mem && k.state == Listen && k.num == s.mem[l].num
    requires Inv(Virtual(s, l, k, v))
    ensures var t := CloseEach(s, v);
            l in t.mem && t.mem[l] == s.mem[l] && Inv(Virtual(t, l, k, [])) && ClosedOnly(s, t, v) && l !in v
    decreases |v|
  {
    hide Inv, ClosePending, Sound, Distinct, Virtual, Advances;
    if v == [] {
      assert CloseEach(s, v) == s;
    } else {
      PendingStep(s, l, k, v);
      var s1 := ClosePending(s, v[0]);
      EachKeeps(s1, l, k, v[1..]);
      ClosedTwice(s, s1, CloseEach(s1, v[1..]), v);
    }
  }

  lemma ClosedTwice(s: Stack, s1: Stack, t: Stack, v: seq<nat>)
    requires v != [] && v[0] !in v[1..] && ClosedOnly(s, s1, [v[0]]) && ClosedOnly(s1, t, v[1..])
    ensures ClosedOnly(s, t, v)
  {
    hide Advances;
    assert forall a :: a in v <==> a == v[0] || a in v[1..];
  }

  lemma CloseListenerKeeps(s: Stack, l: nat)
    requires Inv(s) && Enabled(s, CloseListener(l))
    ensures Inv(CloseListening(s, l)) && Moves(s, CloseListener(l), CloseListening(s, l))
  {
    hide Inv, Sound, Distinct, CloseEach, SocketOk, Remove, Advances;
    SoundInv(s);
    var k := s.mem[l];
    var s0 := s.(mem := s.mem[l := k.(state := Closed)]);
    assert Virtual(s0, l, k, k.pending).mem == s.mem;
    assert Virtual(s0, l, k, k.pending) == s;
    SoundStays(s, s0);
    EachKeeps(s0, l, k, k.pending);
    var t := CloseEach(s0, k.pending);
    var w := Virtual(t, l, k, []);
    SoundInv(w);
    ListenerFree(s, l);
    RemoveKeeps(w, l);
    RemoveSame(t, w, l);
    var r := CloseListening(s, l);
    assert r == Remove(w, k.num);
    forall a | a in s.mem && a in r.mem
      ensures Advances(s.mem[a], r.mem[a]) && r.mem[a].joined == s.mem[a].joined
    {
      AdvanceSelf(s.mem[a]);
      assert a in t.mem && a != l;
    }
  }

  lemma ListenerFree(s: Stack, l: nat)
    requires Inv(s) && l in s.mem && s.mem[l].state == Listen
    ensures s.mem[l].waiting == None
  {
    hide Addressed, Unique, PendingAll;
    assert SocketOk(s.mem[l]);
  }

  /** Removing the listener gives the same whatever its record. */
  lemma RemoveSame(t: Stack, w: Stack, l: nat)
    requires Sound(t) && l in t.mem && l in w.mem && w == t.(mem := t.mem[l := w.mem[l]]) && w.mem[l].num == t.mem[l].num
    requires Inv(w)
    ensures Sound(w) && Remove(t, w.mem[l].num) == Remove(w, w.mem[l].num)
  {
    hide Inv, First, SwapRemoved;
    SoundInv(w);
    InvParts(w);
    SameFirst(t, w, w.mem[l].num, 0);
    var i := FirstIs(w, l);
    assert t.mem - {l} == w.mem - {l};
  }

  /** Every event keeps the invariant and moves every connection forward. */
  lemma EventKeeps(s: Stack, e: Event)
    requires Inv(s) && Enabled(s, e)
    ensures Inv(Next(s, e)) && Moves(s, e, Next(s, e))
  {
    hide Inv, Moves, Receive, OpenListener, Accept, Send, CloseOne, CloseListening;
    match e
    case Arrive(g) => ArriveKeeps(s, g);
    case OpenPort(port) => OpenPortKeeps(s, port);
    case AcceptOn(l) => AcceptKeeps(s, l);
    case SendOn(a, len) => SendKeeps(s, a, len);
    case CloseOf(a) => CloseKeeps(s, a);
    case CloseListener(l) => CloseListenerKeeps(s, l);
  }

  predicate Possible(s: Stack, events: seq<Event>)
    decreases |events|
  {
    Sound(s) && (events == [] || (Enabled(s, events[0]) && Possible(Next(s, events[0]), events[1..])))
  }

  function Run(s: Stack, events: seq<Event>): Stack
    requires Possible(s, events)
    decreases |events|
  {
    if events == [] then s else Run(Next(s, events[0]), events[1..])
  }

  const EMPTY: Stack := Stack(map[], [], 0)

  lemma {:induction false} RunKeeps(s: Stack, events: seq<Event>)
    requires Inv(s) && Possible(s, events)
    ensures Inv(Run(s, events))
    decreases |events|
  {
    hide Inv, Moves, Next, Enabled;
    if events != [] {
      EventKeeps(s, events[0]);
      RunKeeps(Next(s, events[0]), events[1..]);
    }
  }

  /** Where any number of steps can take a connection. */
  predicate Climbs(k: Socket, k': Socket) {
    && SameEnds(k, k')
    && (k'.state == k.state || Rank(k.state) < Rank(k'.state))
    && k'.fins >= k.fins && k'.sent >= k.sent && k'.joined >= k.joined
  }

  /** A socket that has been removed does not come back. */
  lemma {:induction false} GoneForGood(s: Stack, events: seq<Event>, a: nat)
    requires Inv(s) && Possible(s, events) && a !in s.mem && a < s.next
    ensures a !in Run(s, events).mem
    decreases |events|
  {
    hide Inv, Next, Enabled;
    if events != [] {
      EventKeeps(s, events[0]);
      GoneForGood(Next(s, events[0]), events[1..], a);
    }
  }

  /** Over a whole run a connection never returns to a state it has left. */
  lemma {:induction false} RunClimbs(s: Stack, events: seq<Event>, a: nat)
    requires Inv(s) && Possible(s, events) && a in s.mem && a in Run(s, events).mem
    ensures Climbs(s.mem[a], Run(s, events).mem[a])
    decreases |events|
  {
    hide Inv, Next, Enabled, Edge, Rank;
    if events != [] {
      var s1 := Next(s, events[0]);
      EventKeeps(s, events[0]);
      KnownBelow(s, a);
      if a !in s1.mem {
        GoneForGood(s1, events[1..], a);
      }
      RunClimbs(s1, events[1..], a);
      if Edge(s.mem[a].state, s1.mem[a].state) {
        EdgeClimbs(s.mem[a].state, s1.mem[a].state);
      }
    }
  }

  lemma KnownBelow(s: Stack, a: nat)
    requires Inv(s) && a in s.mem
    ensures a < s.next
  {
    hide AllOk, Unique, PendingAll;
  }

  /** In every reachable state socket numbers are distinct and below 128, at most one
      connection has given ports and remote address, every connection joined at most one
      pending list at most once, sent at most one FIN, from ESTABLISHED on its sequence number
      counts the bytes sent and the FIN, and a pending list names live sockets once each. */
  lemma ReachableSockets(events: seq<Event>, a: nat, b: nat)
    requires Possible(EMPTY, events)
    requires a in Run(EMPTY, events).mem && b in Run(EMPTY, events).mem
    ensures Reached(Run(EMPTY, events).mem[a])
    ensures a != b ==> Apart(Run(EMPTY, events).mem[a], Run(EMPTY, events).mem[b])
    ensures PendingOk(Run(EMPTY, events), a)
  {
    hide Possible, Run;
    assert Inv(EMPTY);
    RunKeeps(EMPTY, events);
  }

  predicate FinSent(st: TcpState) {
    st == FinWait1 || st == FinWait2 || st == Closing || st == TimeWait
  }

  predicate Reached(k: Socket) {
    && 0 <= k.num < MAX_SOCKETS && k.joined <= 1
    && k.fins == (if FinSent(k.state) then 1 else 0)
    && (k.state != Listen && k.state != SynReceived ==> Counts(k))
  }

  // ----- a run that ends in the null socket -----

  lemma {:induction false} RunMore(s: Stack, events: seq<Event>, e: Event)
    requires Possible(s, events) && Sound(Run(s, events)) && Enabled(Run(s, events), e)
    requires Sound(Next(Run(s, events), e))
    ensures Possible(s, events + [e]) && Run(s, events + [e]) == Next(Run(s, events), e)
    decreases |events|
  {
    hide Enabled, Next, Sound;
    if events == [] {
      assert [e][1..] == [];
      RunNothing(Next(s, e));
    } else {
      RunMore(Next(s, events[0]), events[1..], e);
      assert (events + [e])[1..] == events[1..] + [e];
    }
  }

  lemma RunNothing(s: Stack)
    requires Sound(s)
    ensures Possible(s, []) && Run(s, []) == s
  {
  }

  /** The n-th SYN of a flood: port n of one host to port 80. */
  function Syn(n: nat): Segment {
    Segment(1, n, 80, 0, 0, false, true, false, 0)
  }

  function Flood(n: nat): seq<Event> {
    if n == 0 then [OpenPort(80)] else Flood(n - 1) + [Arrive(Syn(n))]
  }

  /** A listener on port 80 and n connections, all from ports up to n. */
  predicate Flooded(s: Stack, n: nat) {
    && Inv(s) && Sound(s) && |s.sockets| == n + 1
    && Find(s, ByListener(80)).Some?
    && (forall a :: a in s.mem ==> s.mem[a].remotePort <= n)
  }

  lemma NobodyYet(s: Stack, n: nat)
    requires Flooded(s, n)
    ensures Find(s, ByConnection(80, 1, n + 1)).None?
  {
    hide Inv;
    var c := Find(s, ByConnection(80, 1, n + 1));
  }

  lemma StillListens(s: Stack, s': Stack, l: nat, port: nat)
    requires Sound(s) && Sound(s') && Find(s, ByListener(port)) == Some(l)
    requires l in s'.sockets && s'.mem[l] == s.mem[l]
    ensures Find(s', ByListener(port)).Some?
  {
    hide Find;
    assert Matches(s'.mem[l], ByListener(port));
  }

  lemma FloodStep(s: Stack, n: nat)
    requires Flooded(s, n) && n + 1 < MAX_SOCKETS
    ensures Enabled(s, Arrive(Syn(n + 1))) && Flooded(Next(s, Arrive(Syn(n + 1))), n + 1)
  {
    hide Inv, Find, UnusedNum, Moves;
    NobodyYet(s, n);
    NumbersRunOut(s);
    EventKeeps(s, Arrive(Syn(n + 1)));
    var s' := Next(s, Arrive(Syn(n + 1)));
    assert s'.sockets == s.sockets + [s.next];
    SoundInv(s');
    var l := Find(s, ByListener(80)).value;
    KnownBelow(s, l);
    StillListens(s, s', l, 80);
  }

  lemma OpensFlood()
    ensures Possible(EMPTY, Flood(0)) && Flooded(Run(EMPTY, Flood(0)), 0)
  {
    hide Moves;
    EmptyInv();
    EventKeeps(EMPTY, OpenPort(80));
    RunNothing(EMPTY);
    var s := Next(EMPTY, OpenPort(80));
    SoundInv(s);
    RunMore(EMPTY, [], OpenPort(80));
    assert [] + [OpenPort(80)] == Flood(0);
    NumbersRunOut(EMPTY);
    assert s.sockets == [0];
    assert Matches(s.mem[0], ByListener(80));
  }

  lemma EmptyInv()
    ensures Inv(EMPTY)
  {
  }

  lemma {:induction false} FloodRuns(n: nat)
    requires n < MAX_SOCKETS
    ensures Possible(EMPTY, Flood(n)) && Flooded(Run(EMPTY, Flood(n)), n)
  {
    hide Possible, Run, Flooded, Enabled, Next;
    if n == 0 {
      OpensFlood();
    } else {
      FloodRuns(n - 1);
      var s := Run(EMPTY, Flood(n - 1));
      FloodStep(s, n - 1);
      FloodedSound(s, n - 1);
      FloodedSound(Next(s, Arrive(Syn(n))), n);
      RunMore(EMPTY, Flood(n - 1), Arrive(Syn(n)));
    }
  }

  lemma FloodedSound(s: Stack, n: nat)
    requires Flooded(s, n)
    ensures Sound(s)
  {
  }

  /** One listener and 127 SYNs from different ports are a run after which the next SYN
      reaches the null socket. */
  lemma NullReached()
    ensures Possible(EMPTY, Flood(127))
    ensures var s := Run(EMPTY, Flood(127)); Sound(s) && Receive(s, Syn(128)).None?
  {
    hide Possible, Run, Inv, Find, Receive;
    FloodRuns(127);
    var s := Run(EMPTY, Flood(127));
    NobodyYet(s, 127);
    NullExactly(s, Syn(128));
  }
}
