/** Whole runs of malloc and valid free: what the clients of the heap can rely on. */
module HeapRuns {
  import opened Machine
  import opened BlockList
  import H = Heap

  /** The block list, and for every pointer handed out the size that was asked for. */
  datatype State = State(blocks: seq<Block>, live: map<nat, nat>)

  datatype Op = Malloc(size: nat) | Free(ptr: nat)

  /** Any 64-bit size may be asked for; only null and live pointers may be freed. */
  predicate Enabled(s: State, op: Op) {
    match op
    case Malloc(size) => size < U64
    case Free(ptr) => ptr == H.NULL || ptr in s.live
  }

  /** Index of the block whose payload starts at `ptr`, |bs| when there is none. */
  function IndexOf(bs: seq<Block>, ptr: nat): (i: nat)
    ensures i <= |bs|
    ensures i < |bs| ==> bs[i].Payload() == ptr
    ensures i == |bs| ==> forall b :: b in bs ==> b.Payload() != ptr
  {
    if bs == [] then 0
    else if bs[0].Payload() == ptr then 0
    else 1 + IndexOf(bs[1..], ptr)
  }

  function Step(s: State, op: Op): State
    requires Enabled(s, op)
  {
    match op
    case Malloc(size) =>
      var i := FirstFit(s.blocks, Round16(size));
      if i == |s.blocks| then s
      else State(Alloc(s.blocks, i, Round16(size)), s.live[s.blocks[i].Payload() := size])
    case Free(ptr) =>
      var k := IndexOf(s.blocks, ptr);
      if ptr == H.NULL || k == |s.blocks| then s
      else State(Release(s.blocks, k), s.live - {ptr})
  }

  /** Every operation of the run is enabled when its turn comes. */
  predicate Possible(s: State, ops: seq<Op>)
    decreases |ops|
  {
    ops == [] || (Enabled(s, ops[0]) && Possible(Step(s, ops[0]), ops[1..]))
  }

  function Run(s: State, ops: seq<Op>): State
    requires Possible(s, ops)
    decreases |ops|
  {
    if ops == [] then s else Run(Step(s, ops[0]), ops[1..])
  }

  /** The heap as heap_init leaves it. */
  function Initial(start: nat, end: nat): State
    requires start + HEADER <= end
  {
    State([Block(start, end - start - HEADER, true)], map[])
  }

  ghost predicate Inv(s: State, start: nat, end: nat) {
    && WellFormed(s.blocks, start, end)
    && Agree(s.blocks, s.live)
  }

  lemma SamePayload(bs: seq<Block>, b: Block, c: Block)
    requires Contiguous(bs) && b in bs && c in bs && b.Payload() == c.Payload()
    ensures b == c
  {
    var i :| 0 <= i < |bs| && bs[i] == b;
    var j :| 0 <= j < |bs| && bs[j] == c;
    if i != j {
      Disjoint(bs, i, j);
    }
  }

  /** Pointers and used blocks agree, in both directions. */
  ghost predicate Agree(bs: seq<Block>, live: map<nat, nat>) {
    && (forall p :: p in live ==> exists b :: b in Used(bs) && b.Payload() == p)
    && (forall b :: b in Used(bs) ==> Covers(live, b))
  }

  ghost predicate Covers(live: map<nat, nat>, b: Block) {
    b.Payload() in live && live[b.Payload()] < U64 && b.size >= Round16(live[b.Payload()])
  }

  lemma MallocAgrees(s: State, size: nat, i: nat)
    requires Contiguous(s.blocks) && Agree(s.blocks, s.live) && size < U64
    requires i < |s.blocks| && Fits(s.blocks[i], Round16(size))
    ensures Agree(Alloc(s.blocks, i, Round16(size)), s.live[s.blocks[i].Payload() := size])
  {
    var r := Alloc(s.blocks, i, Round16(size));
    var live := s.live[s.blocks[i].Payload() := size];
    AllocUsed(s.blocks, i, Round16(size));
    assert r[i].Payload() == s.blocks[i].Payload() && r[i] in Used(r);
    forall p | p in live
      ensures exists b :: b in Used(r) && b.Payload() == p
    {
      if p != r[i].Payload() {
        var b :| b in Used(s.blocks) && b.Payload() == p;
        assert b in Used(r);
      }
    }
    forall b | b in Used(r)
      ensures Covers(live, b)
    {
      if b != r[i] {
        assert Covers(s.live, b);
        UsedElsewhere(s.blocks, i, b);
      }
    }
  }

  lemma UsedElsewhere(bs: seq<Block>, i: nat, b: Block)
    requires Contiguous(bs) && i < |bs| && bs[i].free && b in Used(bs)
    ensures b.Payload() != bs[i].Payload()
  {
    var j :| 0 <= j < |bs| && bs[j] == b;
    Disjoint(bs, i, j);
  }

  lemma FreeAgrees(s: State, k: nat)
    requires Contiguous(s.blocks) && Coalesced(s.blocks) && Agree(s.blocks, s.live)
    requires k < |s.blocks| && !s.blocks[k].free
    ensures Agree(Release(s.blocks, k), s.live - {s.blocks[k].Payload()})
  {
    var live := s.live - {s.blocks[k].Payload()};
    ReleaseUsed(s.blocks, k);
    var used := Used(s.blocks) - {s.blocks[k]};
    forall p | p in live
      ensures exists c :: c in used && c.Payload() == p
    {
      var c :| c in Used(s.blocks) && c.Payload() == p;
      assert c in used;
    }
    forall c | c in used
      ensures Covers(live, c)
    {
      assert Covers(s.live, c);
      if c.Payload() == s.blocks[k].Payload() {
        SamePayload(s.blocks, c, s.blocks[k]);
      }
    }
  }

  lemma MallocKeeps(s: State, size: nat, start: nat, end: nat)
    requires Inv(s, start, end) && size < U64
    ensures Inv(Step(s, Malloc(size)), start, end)
  {
    var i := FirstFit(s.blocks, Round16(size));
    if i < |s.blocks| {
      AllocKeeps(s.blocks, i, Round16(size), start, end);
      MallocAgrees(s, size, i);
    }
  }

  /** A live pointer is found, and its block is in use. */
  lemma FoundUsed(s: State, ptr: nat)
    requires Contiguous(s.blocks) && Agree(s.blocks, s.live) && ptr in s.live
    ensures var k := IndexOf(s.blocks, ptr); k < |s.blocks| && !s.blocks[k].free
  {
    var k := IndexOf(s.blocks, ptr);
    var b :| b in Used(s.blocks) && b.Payload() == ptr;
    SamePayload(s.blocks, b, s.blocks[k]);
  }

  lemma FreeKeeps(s: State, ptr: nat, start: nat, end: nat)
    requires Inv(s, start, end) && Enabled(s, Free(ptr))
    ensures Inv(Step(s, Free(ptr)), start, end)
  {
    if ptr != H.NULL {
      FoundUsed(s, ptr);
      var k := IndexOf(s.blocks, ptr);
      ReleaseKeeps(s.blocks, k, start, end);
      FreeAgrees(s, k);
    }
  }

  /** Over every run the list tiles the heap, is coalesced, and its allocated blocks are
      exactly the pointers handed out and not yet freed. */
  lemma {:induction false} RunKeeps(s: State, ops: seq<Op>, start: nat, end: nat)
    requires Inv(s, start, end) && Possible(s, ops)
    ensures Inv(Run(s, ops), start, end)
    decreases |ops|
  {
    if ops != [] {
      match ops[0] {
        case Malloc(size) => MallocKeeps(s, size, start, end);
        case Free(ptr) => FreeKeeps(s, ptr, start, end);
      }
      RunKeeps(Step(s, ops[0]), ops[1..], start, end);
    }
  }

  /** The block behind a live pointer is apart from every other block of the list. */
  lemma LiveBlock(s: State, start: nat, end: nat, p: nat) returns (b: Block)
    requires Inv(s, start, end) && p in s.live
    ensures b in Used(s.blocks) && b.Payload() == p && Multiple(p, 16)
    ensures start <= b.addr && b.End() <= end
    ensures forall c :: c in s.blocks && c != b ==> b.End() <= c.addr || c.End() <= b.addr
  {
    b :| b in Used(s.blocks) && b.Payload() == p;
    var i :| 0 <= i < |s.blocks| && s.blocks[i] == b;
    Within(s.blocks, start, end, i);
    assert Multiple(HEADER, 16);
    MultiplesAdd(b.addr, HEADER, 16);
    forall c | c in s.blocks && c != b
      ensures b.End() <= c.addr || c.End() <= b.addr
    {
      var j :| 0 <= j < |s.blocks| && s.blocks[j] == c;
      Disjoint(s.blocks, i, j);
    }
  }

  lemma LivePair(s: State, start: nat, end: nat, p: nat, q: nat)
    requires Inv(s, start, end) && p in s.live && q in s.live && p != q
    requires s.live[p] <= U64 - 16 && s.live[q] <= U64 - 16
    ensures p + s.live[p] <= q || q + s.live[q] <= p
  {
    var b := LiveBlock(s, start, end, p);
    var c := LiveBlock(s, start, end, q);
    assert b.size >= s.live[p] && c.size >= s.live[q];
  }

  /** The bytes [p, p + live[p]) are 16-aligned, inside the heap, and share no byte with
      the bytes of another live pointer or with any header. */
  ghost predicate Exclusive(s: State, start: nat, end: nat, p: nat)
    requires p in s.live
  {
    && Multiple(p, 16) && start + HEADER <= p && p + s.live[p] <= end
    && (forall q :: q in s.live && q != p && s.live[q] <= U64 - 16 ==>
          p + s.live[p] <= q || q + s.live[q] <= p)
    && (forall b :: b in s.blocks ==> p + s.live[p] <= b.addr || b.addr + HEADER <= p)
  }

  lemma LiveApart(s: State, start: nat, end: nat, p: nat)
    requires Inv(s, start, end) && p in s.live && s.live[p] <= U64 - 16
    ensures Multiple(p, 16) && start + HEADER <= p && p + s.live[p] <= end
    ensures forall b :: b in s.blocks ==> p + s.live[p] <= b.addr || b.addr + HEADER <= p
  {
    var b := LiveBlock(s, start, end, p);
    assert b.size >= s.live[p];
  }

  lemma LiveExclusive(s: State, start: nat, end: nat, p: nat)
    requires Inv(s, start, end) && p in s.live && s.live[p] <= U64 - 16
    ensures Exclusive(s, start, end, p)
  {
    LiveApart(s, start, end, p);
    forall q | q in s.live && q != p && s.live[q] <= U64 - 16
      ensures p + s.live[p] <= q || q + s.live[q] <= p
    {
      LivePair(s, start, end, p, q);
    }
  }

  /** In every reachable heap every request that did not wrap owns its bytes alone. */
  lemma Safety(ops: seq<Op>, start: nat, end: nat, p: nat)
    requires start + HEADER <= end && Multiple(start, 16)
    requires Possible(Initial(start, end), ops)
    requires var s := Run(Initial(start, end), ops); p in s.live && s.live[p] <= U64 - 16
    ensures Exclusive(Run(Initial(start, end), ops), start, end, p)
  {
    RunKeeps(Initial(start, end), ops, start, end);
    LiveExclusive(Run(Initial(start, end), ops), start, end, p);
  }

  /** A block in use keeps its address and its size through every step but its own free. */
  lemma Stable(s: State, op: Op, b: Block, start: nat, end: nat)
    requires Inv(s, start, end) && Enabled(s, op)
    requires b in Used(s.blocks) && op != Free(b.Payload())
    ensures b in Used(Step(s, op).blocks)
  {
    match op
    case Malloc(size) =>
      var i := FirstFit(s.blocks, Round16(size));
      if i < |s.blocks| {
        AllocUsed(s.blocks, i, Round16(size));
      }
    case Free(ptr) =>
      var k := IndexOf(s.blocks, ptr);
      if ptr != H.NULL && k < |s.blocks| {
        ReleaseUsed(s.blocks, k);
      }
  }

  /** Once every pointer has been freed, in whatever order, the heap is as heap_init left it. */
  lemma Recovery(ops: seq<Op>, start: nat, end: nat)
    requires start + HEADER <= end && Multiple(start, 16)
    requires Possible(Initial(start, end), ops)
    requires Run(Initial(start, end), ops).live == map[]
    ensures Run(Initial(start, end), ops) == Initial(start, end)
  {
    var s := Run(Initial(start, end), ops);
    RunKeeps(Initial(start, end), ops, start, end);
    assert Used(s.blocks) == {};
    AllFreeIsInitial(s.blocks, start, end);
  }

  /** malloc returns null only when no free block holds the rounded size, and hands out at
      least the requested bytes exactly when the rounding did not wrap. */
  lemma MallocOutcome(s: State, size: nat, start: nat, end: nat)
    requires Inv(s, start, end) && size < U64 && end - start <= U64 - 16
    ensures var i := FirstFit(s.blocks, Round16(size));
            && (i == |s.blocks| <==> forall b :: b in s.blocks && b.free ==> b.size < Round16(size))
            && (i < |s.blocks| ==>
                  (Alloc(s.blocks, i, Round16(size))[i].size >= size <==> size <= U64 - 16))
  {
    var need := Round16(size);
    var i := FirstFit(s.blocks, need);
    if i < |s.blocks| {
      assert s.blocks[i] in s.blocks;
      Within(s.blocks, start, end, i);
    }
  }

  /** One step of the pointer code. */
  method ExecuteOne(h: H.Heap, op: Op, ghost s: State)
    requires h.Valid() && h.Blocks() == s.blocks && Inv(s, h.start, h.end) && Enabled(s, op)
    modifies h`mem, h`spine
    ensures h.Valid() && h.Blocks() == Step(s, op).blocks
  {
    match op {
      case Malloc(size) =>
        var _ := h.Malloc(size);
      case Free(ptr) =>
        h.Free(ptr, IndexOf(s.blocks, ptr));
    }
  }

  /** The pointer code follows the run step by step. */
  method Execute(h: H.Heap, ops: seq<Op>)
    requires h.Valid() && h.start + HEADER <= h.end
    requires h.Blocks() == Initial(h.start, h.end).blocks
    requires Possible(Initial(h.start, h.end), ops)
    modifies h`mem, h`spine
    ensures h.Valid() && h.Blocks() == Run(Initial(h.start, h.end), ops).blocks
  {
    ghost var s := Initial(h.start, h.end);
    for n := 0 to |ops|
      invariant h.Valid() && h.Blocks() == s.blocks && Inv(s, h.start, h.end)
      invariant Possible(s, ops[n..])
      invariant Run(s, ops[n..]) == Run(Initial(h.start, h.end), ops)
    {
      ghost var todo := ops[n..];
      assert todo[0] == ops[n] && todo[1..] == ops[n + 1..];
      assert Possible(Step(s, ops[n]), todo[1..]);
      RunKeeps(s, [ops[n]], h.start, h.end);
      assert Run(s, [ops[n]]) == Step(s, ops[n]);
      ExecuteOne(h, ops[n], s);
      s := Step(s, ops[n]);
    }
  }
}
