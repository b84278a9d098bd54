/** What a connection receives: the ring buffer of payloads, and which bytes a reader gets. */
module Receive {
  import opened Machine
  import opened Memory

  // ----- Ring_Buffer -----

  class RingBuffer<T(0)> {
    const data: array<T>
    var head: nat
    var tail: nat

    ghost predicate Valid()
      reads this
    {
      head < data.Length && tail < data.Length
    }

    /** The elements pushed and not yet popped, oldest first. */
    ghost function Contents(): seq<T>
      requires Valid()
      reads this, data
    {
      if tail <= head then data[tail..head] else data[tail..] + data[..head]
    }

    constructor (size: nat)
      requires size > 0
      ensures Valid() && fresh(data) && data.Length == size && Contents() == []
    {
      data := new T[size];
      head := 0;
      tail := 0;
    }

    method Empty() returns (r: bool)
      requires Valid()
      ensures r <==> Contents() == []
    {
      r := tail == head;
    }

    /** Refused exactly when all places but one are taken. */
    method Push(value: T) returns (ok: bool)
      requires Valid()
      modifies this`head, data
      ensures Valid()
      ensures ok <==> |old(Contents())| < data.Length - 1
      ensures Contents() == if ok then old(Contents()) + [value] else old(Contents())
    {
      NextPlace(head, data.Length);
      var next := (head + 1) % data.Length;
      if next == tail {
        return false;
      }
      data[head] := value;
      head := next;
      ok := true;
    }

    method Pop() returns (out: Option<T>)
      requires Valid()
      modifies this`tail
      ensures Valid()
      ensures out == if old(Contents()) == [] then None else Some(old(Contents())[0])
      ensures Contents() == if old(Contents()) == [] then [] else old(Contents())[1..]
    {
      if tail == head {
        return None;
      }
      NextPlace(tail, data.Length);
      out := Some(data[tail]);
      tail := (tail + 1) % data.Length;
    }
  }

  lemma NextPlace(i: nat, n: nat)
    requires i < n
    ensures (i + 1) % n == if i + 1 == n then 0 else i + 1
  {
    DivUnique(i + 1, n, if i + 1 == n then 1 else 0, if i + 1 == n then 0 else i + 1);
  }

  // ----- receiving -----

  /** `rx_queue` has 128 places. */
  const PLACES: nat := 128

  /** The payloads queued; history: the payload bytes acknowledged, those given to the reader, and
      how many were neither given nor kept. */
  datatype Stream = Stream(queue: seq<seq<Byte>>, acked: seq<Byte>, given: seq<Byte>, lost: nat)

  const START: Stream := Stream([], [], [], 0)

  datatype Event = Payload(bytes: seq<Byte>) | Recv(len: nat)

  /** A payload is acknowledged whether or not the queue takes it. */
  function Queued(queue: seq<seq<Byte>>, bytes: seq<Byte>): seq<seq<Byte>> {
    if |queue| < PLACES - 1 then queue + [bytes] else queue
  }

  /** recv gives the front of the oldest payload and drops what the reader had no room for. */
  function Given(queue: seq<seq<Byte>>, len: nat): (r: seq<Byte>)
    ensures |r| <= len
  {
    if queue == [] then [] else if len > |queue[0]| then queue[0] else queue[0][..len]
  }

  function Rest(queue: seq<seq<Byte>>): seq<seq<Byte>> {
    if queue == [] then [] else queue[1..]
  }

  function Next(s: Stream, e: Event): Stream {
    match e
    case Payload(bytes) =>
      s.(queue := Queued(s.queue, bytes), acked := s.acked + bytes,
         lost := s.lost + if Queued(s.queue, bytes) == s.queue then |bytes| else 0)
    case Recv(len) =>
      s.(queue := Rest(s.queue), given := s.given + Given(s.queue, len),
         lost := s.lost + if s.queue == [] then 0 else |s.queue[0]| - |Given(s.queue, len)|)
  }

  /** The payload branch of receive_tcp. */
  method QueuePayload(queue: RingBuffer<seq<Byte>>, bytes: seq<Byte>)
    requires queue.Valid() && queue.data.Length == PLACES
    modifies queue`head, queue.data
    ensures queue.Valid() && queue.Contents() == Queued(old(queue.Contents()), bytes)
  {
    var _ := queue.Push(bytes);
  }

  /** tcp_socket::recv: the number of bytes copied to the front of the destination. */
  method RecvInto(queue: RingBuffer<seq<Byte>>, dst: array<Byte>, len: nat) returns (n: nat)
    requires queue.Valid() && len <= dst.Length
    modifies queue`tail, dst
    ensures queue.Valid() && queue.Contents() == Rest(old(queue.Contents()))
    ensures n == |Given(old(queue.Contents()), len)|
    ensures dst[..] == Overwrite(old(dst[..]), 0, Given(old(queue.Contents()), len))
  {
    hide Overwrite;
    ghost var dst0, all := dst[..], queue.Contents();
    var empty := queue.Empty();
    if empty {
      OverwriteNothing(dst0, 0);
      return 0;
    }
    var d := queue.Pop();
    n := if len > |d.value| then |d.value| else len;
    assert d.value[..n] == Given(all, len);
    CopyFront(dst, d.value[..n]);
  }

  method CopyFront(dst: array<Byte>, src: seq<Byte>)
    requires |src| <= dst.Length
    modifies dst
    ensures dst[..] == Overwrite(old(dst[..]), 0, src)
  {
    for i := 0 to |src|
      invariant forall k :: 0 <= k < dst.Length ==> dst[k] == if k < i then src[k] else old(dst[k])
    {
      dst[i] := src[i];
    }
    OverwriteIs(old(dst[..]), 0, src, dst[..]);
  }

  function Flat(queue: seq<seq<Byte>>): seq<Byte> {
    if queue == [] then [] else Flat(queue[..|queue| - 1]) + queue[|queue| - 1]
  }

  lemma FlatMore(queue: seq<seq<Byte>>, bytes: seq<Byte>)
    ensures Flat(queue + [bytes]) == Flat(queue) + bytes
  {
    assert (queue + [bytes])[..|queue|] == queue;
  }

  lemma {:induction false} FlatFront(queue: seq<seq<Byte>>)
    requires queue != []
    ensures Flat(queue) == queue[0] + Flat(queue[1..])
    decreases |queue|
  {
    var n := |queue| - 1;
    var front, last := queue[..n], queue[n];
    assert queue == front + [last];
    if n == 0 {
      assert queue[1..] == [] && front == [];
    } else {
      hide Flat;
      FlatFront(front);
      assert queue[1..] == front[1..] + [last];
      FlatMore(front, last);
      FlatMore(front[1..], last);
    }
  }

  /** A payload that meets 127 others is dropped, and a read shorter than the payload drops its end. */
  predicate Loses(s: Stream, e: Event) {
    match e
    case Payload(bytes) => |s.queue| >= 127 && bytes != []
    case Recv(len) => s.queue != [] && len < |s.queue[0]|
  }

  predicate Lossless(s: Stream, events: seq<Event>)
    decreases |events|
  {
    events == [] || (!Loses(s, events[0]) && Lossless(Next(s, events[0]), events[1..]))
  }

  function Run(s: Stream, events: seq<Event>): Stream
    decreases |events|
  {
    if events == [] then s else Run(Next(s, events[0]), events[1..])
  }

  /** Acknowledged bytes are with the reader, in the queue, or lost; without loss they are there in
      order. */
  predicate Accounted(s: Stream) {
    && |s.acked| == |s.given| + |Flat(s.queue)| + s.lost
    && (s.lost == 0 ==> s.acked == s.given + Flat(s.queue))
    && |s.queue| <= 127
  }

  lemma StepAccounts(s: Stream, e: Event)
    requires Accounted(s)
    ensures Accounted(Next(s, e))
    ensures Next(s, e).lost >= s.lost && (Next(s, e).lost == s.lost <==> !Loses(s, e))
  {
    match e
    case Payload(bytes) => PayloadAccounts(s, bytes);
    case Recv(len) => RecvAccounts(s, len);
  }

  lemma PayloadAccounts(s: Stream, bytes: seq<Byte>)
    requires Accounted(s)
    ensures Accounted(Next(s, Payload(bytes)))
    ensures Next(s, Payload(bytes)).lost >= s.lost && (Next(s, Payload(bytes)).lost == s.lost <==> !Loses(s, Payload(bytes)))
  {
    hide Flat;
    FlatMore(s.queue, bytes);
    assert |s.queue + [bytes]| == |s.queue| + 1;
  }

  lemma RecvAccounts(s: Stream, len: nat)
    requires Accounted(s)
    ensures Accounted(Next(s, Recv(len)))
    ensures Next(s, Recv(len)).lost >= s.lost && (Next(s, Recv(len)).lost == s.lost <==> !Loses(s, Recv(len)))
  {
    hide Flat;
    if s.queue != [] {
      FlatFront(s.queue);
      assert s.queue[0][..|s.queue[0]|] == s.queue[0];
    }
  }

  lemma {:induction false} RunAccounts(s: Stream, events: seq<Event>)
    requires Accounted(s)
    ensures Accounted(Run(s, events)) && Run(s, events).lost >= s.lost
    ensures Run(s, events).lost == s.lost <==> Lossless(s, events)
    decreases |events|
  {
    hide Accounted, Next, Loses;
    if events != [] {
      StepAccounts(s, events[0]);
      RunAccounts(Next(s, events[0]), events[1..]);
    }
  }

  /** Over every run of arriving payloads and reads, what was acknowledged is what the reader got
      followed by what is queued exactly when no payload met a full queue and no read was shorter
      than its payload. */
  lemma Delivered(events: seq<Event>)
    ensures var s := Run(START, events);
            s.acked == s.given + Flat(s.queue) <==> Lossless(START, events)
  {
    hide Run, Lossless;
    RunAccounts(START, events);
  }
}
