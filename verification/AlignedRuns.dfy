/** Whole runs of malloc, malloc_align, malloc_boundry and their frees, mixed in any order. */
module AlignedRuns {
  import opened Machine
  import opened BlockList
  import opened A = AlignedHeap
  import H = Heap
  import R = HeapRuns

  /** What was asked of malloc_align or malloc_boundry, and the raw pointer behind the answer. */
  datatype Cut = Cut(size: nat, align: nat, boundry: nat, raw: nat)

  /** `base.live` has every pointer malloc has handed out, the raw ones included; `cut` has the
      aligned pointers. */
  datatype State = State(base: R.State, words: map<nat, nat>, cut: map<nat, Cut>)

  datatype Op = Malloc(size: nat) | Free(ptr: nat)
              | MallocAlign(size: nat, align: nat) | MallocBoundry(size: nat, align: nat, boundry: nat)
              | FreeAligned(ptr: nat)

  /** A pointer that a caller got from malloc itself. */
  ghost predicate Plain(s: State, p: nat) {
    p in s.base.live && forall q :: q in s.cut ==> s.cut[q].raw != p
  }

  /** malloc_align is malloc_boundry's placement without a boundary and without a guard. */
  ghost predicate Fair(size: nat, align: nat, boundry: nat) {
    && align < U64 && boundry < U64 && Sum(size, align, boundry) <= U64 - 16
    && (align == 0 || PowerOfTwo(align)) && (boundry == 0 || PowerOfTwo(boundry))
  }

  /** Sums that reach malloc, powers of two, and frees of what is outstanding. */
  ghost predicate Enabled(s: State, op: Op) {
    match op
    case Malloc(size) => size < U64
    case Free(ptr) => ptr == H.NULL || Plain(s, ptr)
    case MallocAlign(size, align) => Fair(size, align, 0)
    case MallocBoundry(size, align, boundry) => Fair(size, align, boundry)
    case FreeAligned(ptr) => ptr == H.NULL || ptr in s.cut
  }

  /** The state after a placement that handed out r.ptr. */
  ghost function Handed(s: State, r: Result, c: Cut): State
    requires Sum(c.size, c.align, c.boundry) < U64
  {
    State(R.Step(s.base, R.Malloc(Sum(c.size, c.align, c.boundry))), r.words, s.cut[r.ptr := c])
  }

  ghost function FoundRaw(s: State, size: nat, align: nat, boundry: nat): nat {
    var i := FirstFit(s.base.blocks, Round16(Wrap64(Sum(size, align, boundry))));
    if i < |s.base.blocks| then s.base.blocks[i].Payload() else H.NULL
  }

  ghost function Step(s: State, op: Op): State
    requires Enabled(s, op)
  {
    match op
    case Malloc(size) => s.(base := R.Step(s.base, R.Malloc(size)))
    case Free(ptr) => s.(base := R.Step(s.base, R.Free(ptr)))
    case MallocAlign(size, align) =>
      var r := AlignSpec(s.base.blocks, s.words, size, AtLeastOne(align));
      if r.ptr == H.NULL then s else Handed(s, r, Cut(size, align, 0, FoundRaw(s, size, align, 0)))
    case MallocBoundry(size, align, boundry) =>
      var r := BoundrySpec(s.base.blocks, s.words, size, align, boundry);
      if r.ptr == H.NULL then s else Handed(s, r, Cut(size, align, boundry, FoundRaw(s, size, align, boundry)))
    case FreeAligned(ptr) =>
      if ptr == H.NULL || s.cut[ptr].raw !in s.base.live then s
      else State(R.Step(s.base, R.Free(s.cut[ptr].raw)), s.words, s.cut - {ptr})
  }

  // ----- the invariant -----

  /** q is aligned, crosses no boundary, and is owned by block b with room for its size. */
  ghost predicate Sits(bs: seq<Block>, words: map<nat, nat>, q: nat, c: Cut, b: Block) {
    && Owns(bs, words, q, b) && b.Payload() == c.raw && q + c.size <= b.End()
    && Multiple(q, AtLeastOne(c.align)) && (c.boundry > 0 ==> !Crosses(q, c.size, c.boundry))
  }

  ghost predicate CutOk(s: State, q: nat)
    requires q in s.cut
  {
    s.cut[q].raw in s.base.live && exists b :: Sits(s.base.blocks, s.words, q, s.cut[q], b)
  }

  ghost predicate Cuts(s: State) {
    && (forall q :: q in s.cut ==> CutOk(s, q))
    && (forall q, r :: q in s.cut && r in s.cut && q != r ==> s.cut[q].raw != s.cut[r].raw)
  }

  ghost predicate Inv(s: State, start: nat, end: nat) {
    R.Inv(s.base, start, end) && Cuts(s) && end < U64
  }

  lemma InvParts(s: State, start: nat, end: nat)
    requires Inv(s, start, end)
    ensures WellFormed(s.base.blocks, start, end) && Coalesced(s.base.blocks) && Contiguous(s.base.blocks)
    ensures R.Agree(s.base.blocks, s.base.live)
  {
  }

  /** A malloc of its own leaves every aligned pointer in place. */
  lemma MallocSits(bs: seq<Block>, i: nat, need: nat, words: map<nat, nat>, q: nat, c: Cut, b: Block)
    requires Contiguous(bs) && i < |bs| && Fits(bs[i], need) && Sits(bs, words, q, c, b)
    ensures Sits(Alloc(bs, i, need), words, q, c, b)
  {
    hide Multiple, Crosses, Contiguous, Alloc;
    AllocUsed(bs, i, need);
  }

  lemma FreeSits(bs: seq<Block>, k: nat, words: map<nat, nat>, q: nat, c: Cut, b: Block)
    requires Contiguous(bs) && Coalesced(bs) && k < |bs| && Sits(bs, words, q, c, b) && c.raw != bs[k].Payload()
    ensures Sits(Release(bs, k), words, q, c, b)
  {
    hide Multiple, Crosses, Contiguous, Coalesced, Release;
    ReleaseOwns(bs, words, k, q, b);
  }

  lemma MallocKeeps(s: State, size: nat, start: nat, end: nat)
    requires Inv(s, start, end) && size < U64
    ensures Inv(Step(s, Malloc(size)), start, end)
  {
    hide Sits, R.Inv, Alloc, FirstFit;
    InvParts(s, start, end);
    R.MallocKeeps(s.base, size, start, end);
    var t := Step(s, Malloc(size));
    forall q | q in t.cut
      ensures CutOk(t, q)
    {
      assert CutOk(s, q);
      var b :| Sits(s.base.blocks, s.words, q, s.cut[q], b);
      var i := FirstFit(s.base.blocks, Round16(size));
      if i < |s.base.blocks| {
        MallocSits(s.base.blocks, i, Round16(size), s.words, q, s.cut[q], b);
      }
    }
  }

  /** What the free of a live pointer does to the base state. */
  lemma FreeBase(s: R.State, ptr: nat, start: nat, end: nat)
    requires R.Inv(s, start, end) && ptr in s.live
    ensures R.Enabled(s, R.Free(ptr)) && R.Inv(R.Step(s, R.Free(ptr)), start, end)
    ensures var k := R.IndexOf(s.blocks, ptr);
            && ptr != H.NULL && k < |s.blocks| && s.blocks[k].Payload() == ptr
            && R.Step(s, R.Free(ptr)) == R.State(Release(s.blocks, k), s.live - {ptr})
  {
    hide R.IndexOf, Release;
    R.FreeKeeps(s, ptr, start, end);
    R.FoundUsed(s, ptr);
  }

  /** The free of a pointer that none of the remaining aligned pointers is cut from. */
  lemma ReleaseKeepsCuts(s: State, ptr: nat, t: State, start: nat, end: nat)
    requires Inv(s, start, end) && ptr in s.base.live && R.Enabled(s.base, R.Free(ptr))
    requires t.base == R.Step(s.base, R.Free(ptr)) && t.words == s.words
    requires forall q :: q in t.cut ==> q in s.cut && t.cut[q] == s.cut[q] && s.cut[q].raw != ptr
    ensures Inv(t, start, end)
  {
    hide Sits, R.Inv, R.Step, Release, R.IndexOf, WellFormed, Coalesced, Contiguous, R.Agree;
    InvParts(s, start, end);
    FreeBase(s.base, ptr, start, end);
    var k := R.IndexOf(s.base.blocks, ptr);
    forall q | q in t.cut
      ensures CutOk(t, q)
    {
      assert CutOk(s, q);
      var b :| Sits(s.base.blocks, s.words, q, s.cut[q], b);
      FreeSits(s.base.blocks, k, s.words, q, s.cut[q], b);
    }
  }

  lemma FreeKeeps(s: State, ptr: nat, start: nat, end: nat)
    requires Inv(s, start, end) && Enabled(s, Free(ptr))
    ensures Inv(Step(s, Free(ptr)), start, end)
  {
    hide R.Inv;
    if ptr != H.NULL {
      ReleaseKeepsCuts(s, ptr, Step(s, Free(ptr)), start, end);
    }
  }

  lemma FreeAlignedKeeps(s: State, ptr: nat, start: nat, end: nat)
    requires Inv(s, start, end) && Enabled(s, FreeAligned(ptr))
    ensures Inv(Step(s, FreeAligned(ptr)), start, end)
  {
    hide R.Inv, R.Step;
    if ptr != H.NULL {
      assert CutOk(s, ptr);
      ReleaseKeepsCuts(s, s.cut[ptr].raw, Step(s, FreeAligned(ptr)), start, end);
    }
  }

  /** The base state of a request that is served. */
  lemma HandedBase(s: State, r: Result, c: Cut, i: nat, need: nat, start: nat, end: nat)
    requires Inv(s, start, end) && Fair(c.size, c.align, c.boundry)
    requires need == Round16(Sum(c.size, c.align, c.boundry)) && i == FirstFit(s.base.blocks, need) < |s.base.blocks|
    requires Served(s.base.blocks, s.words, i, need, r.blocks, r.words, r.ptr, c.size)
    ensures var t := Handed(s, r, c);
            && R.Inv(t.base, start, end) && t.base.blocks == r.blocks
            && t.base.live == s.base.live[s.base.blocks[i].Payload() := Sum(c.size, c.align, c.boundry)]
  {
    hide R.Inv, Alloc, FirstFit, Round16, PowerOfTwo, Cuts;
    R.MallocKeeps(s.base, Sum(c.size, c.align, c.boundry), start, end);
  }

  /** An earlier pointer stays, and is cut from another block. */
  lemma HandedOld(s: State, words: map<nat, nat>, blocks: seq<Block>, b: Block, q: nat)
    requires q in s.cut && CutOk(s, q) && Contiguous(blocks) && b in Used(blocks)
    requires forall p, d :: Owns(s.base.blocks, s.words, p, d) ==> Owns(blocks, words, p, d) && d != b
    ensures exists d :: Sits(blocks, words, q, s.cut[q], d)
    ensures s.cut[q].raw != b.Payload()
  {
    hide Multiple, Crosses, Contiguous;
    var d :| Sits(s.base.blocks, s.words, q, s.cut[q], d);
    assert Owns(s.base.blocks, s.words, q, d);
    assert Owns(blocks, words, q, d) && d != b;
    if d.Payload() == b.Payload() {
      R.SamePayload(blocks, d, b);
    }
    assert Sits(blocks, words, q, s.cut[q], d);
  }

  lemma HandedNew(s: State, r: Result, c: Cut, i: nat, need: nat, start: nat, end: nat)
    requires WellFormed(s.base.blocks, start, end) && Multiple(need, 16)
    requires Served(s.base.blocks, s.words, i, need, r.blocks, r.words, r.ptr, c.size)
    requires c.raw == s.base.blocks[i].Payload()
    requires Multiple(r.ptr, AtLeastOne(c.align)) && (c.boundry > 0 ==> !Crosses(r.ptr, c.size, c.boundry))
    ensures i < |r.blocks| && r.blocks[i].Payload() == c.raw && r.blocks[i] in Used(r.blocks)
    ensures Sits(r.blocks, r.words, r.ptr, c, r.blocks[i])
    ensures forall q, d :: Owns(s.base.blocks, s.words, q, d) ==> Owns(r.blocks, r.words, q, d) && d != r.blocks[i]
  {
    hide Alloc, Multiple, Crosses, WellFormed;
    ServedOwns(s.base.blocks, s.words, i, need, r.blocks, r.words, r.ptr, c.size, start, end);
    TakenAt(s.base.blocks, i, need);
  }

  /** A request that is served joins the outstanding ones. */
  lemma HandedKeeps(s: State, r: Result, c: Cut, i: nat, need: nat, start: nat, end: nat)
    requires Inv(s, start, end) && Fair(c.size, c.align, c.boundry)
    requires need == Round16(Sum(c.size, c.align, c.boundry)) && i == FirstFit(s.base.blocks, need) < |s.base.blocks|
    requires Served(s.base.blocks, s.words, i, need, r.blocks, r.words, r.ptr, c.size)
    requires c.raw == s.base.blocks[i].Payload()
    requires Multiple(r.ptr, AtLeastOne(c.align)) && (c.boundry > 0 ==> !Crosses(r.ptr, c.size, c.boundry))
    ensures Inv(Handed(s, r, c), start, end) && Handed(s, r, c).base.blocks == r.blocks
    ensures r.ptr !in s.cut
  {
    hide R.Inv, R.Step, Alloc, FirstFit, Multiple, Crosses, Round16, WellFormed, PowerOfTwo, Served, Sits, Owns, Used;
    InvParts(s, start, end);
    HandedBase(s, r, c, i, need, start, end);
    HandedNew(s, r, c, i, need, start, end);
    var t := Handed(s, r, c);
    BaseParts(t.base, start, end);
    var b := r.blocks[i];
    forall q | q in s.cut
      ensures CutOk(s, q) && s.cut[q].raw != c.raw
      ensures exists d :: Sits(r.blocks, r.words, q, s.cut[q], d)
    {
      HandedOld(s, r.words, r.blocks, b, q);
    }
    forall q | q in t.cut
      ensures CutOk(t, q)
    {
      assert q in s.cut ==> CutOk(s, q);
    }
    if r.ptr in s.cut {
      var d :| Sits(r.blocks, r.words, r.ptr, s.cut[r.ptr], d);
      SameRaw(r.blocks, r.words, r.ptr, s.cut[r.ptr], d, c, b);
    }
  }

  lemma SameRaw(bs: seq<Block>, words: map<nat, nat>, q: nat, c: Cut, b: Block, d: Cut, e: Block)
    requires Sits(bs, words, q, c, b) && Sits(bs, words, q, d, e)
    ensures c.raw == d.raw
  {
    hide Multiple, Crosses;
  }

  lemma BaseParts(s: R.State, start: nat, end: nat)
    requires R.Inv(s, start, end)
    ensures Contiguous(s.blocks)
  {
  }

  lemma TakenAt(bs: seq<Block>, i: nat, need: nat)
    requires i < |bs| && Fits(bs[i], need)
    ensures Alloc(bs, i, need)[i].addr == bs[i].addr
  {
  }

  lemma AlignKeeps(s: State, size: nat, align: nat, start: nat, end: nat)
    requires Inv(s, start, end) && Fair(size, align, 0)
    ensures Inv(Step(s, MallocAlign(size, align)), start, end)
    ensures Step(s, MallocAlign(size, align)).base.blocks == AlignSpec(s.base.blocks, s.words, size, AtLeastOne(align)).blocks
    ensures Step(s, MallocAlign(size, align)).words == AlignSpec(s.base.blocks, s.words, size, AtLeastOne(align)).words
  {
    hide R.Inv, R.Step, Alloc, FirstFit, Multiple, Round16, WellFormed, PowerOfTwo, AlignSpec, Served, Cuts;
    InvParts(s, start, end);
    OneIsPower(align);
    var a := AtLeastOne(align);
    AlignServes(s.base.blocks, s.words, size, a, start, end);
    var need := Round16(Sum(size, align, 0));
    var i := FirstFit(s.base.blocks, need);
    var r := AlignSpec(s.base.blocks, s.words, size, a);
    if i < |s.base.blocks| {
      ServedSomewhere(s.base.blocks, s.words, i, need, r, size);
      HandedKeeps(s, r, Cut(size, align, 0, s.base.blocks[i].Payload()), i, need, start, end);
    }
  }

  lemma ServedSomewhere(bs: seq<Block>, words: map<nat, nat>, i: nat, need: nat, r: Result, size: nat)
    requires Served(bs, words, i, need, r.blocks, r.words, r.ptr, size)
    ensures r.ptr != H.NULL
  {
  }

  lemma BoundryKeeps(s: State, size: nat, align: nat, boundry: nat, start: nat, end: nat)
    requires Inv(s, start, end) && Fair(size, align, boundry)
    ensures var t := Step(s, MallocBoundry(size, align, boundry));
            var r := BoundrySpec(s.base.blocks, s.words, size, align, boundry);
            Inv(t, start, end) && t.base.blocks == r.blocks && t.words == r.words
  {
    hide R.Inv, R.Step, Alloc, FirstFit, Multiple, Crosses, Round16, WellFormed, PowerOfTwo, BoundrySpec, Served, Cuts, BadWindow;
    InvParts(s, start, end);
    BoundryServes(s.base.blocks, s.words, size, align, boundry, start, end);
    var need := Round16(Sum(size, align, boundry));
    var i := FirstFit(s.base.blocks, need);
    var r := BoundrySpec(s.base.blocks, s.words, size, align, boundry);
    if i < |s.base.blocks| && !BadWindow(s.base.blocks[i].Payload(), size, AtLeastOne(align), boundry) {
      ServedSomewhere(s.base.blocks, s.words, i, need, r, size);
      HandedKeeps(s, r, Cut(size, align, boundry, s.base.blocks[i].Payload()), i, need, start, end);
    }
  }

  lemma StepKeeps(s: State, op: Op, start: nat, end: nat)
    requires Inv(s, start, end) && Enabled(s, op)
    ensures Inv(Step(s, op), start, end)
  {
    hide Inv, Step, Fair, Plain;
    match op
    case Malloc(size) => MallocKeeps(s, size, start, end);
    case Free(ptr) => FreeKeeps(s, ptr, start, end);
    case MallocAlign(size, align) => AlignKeeps(s, size, align, start, end);
    case MallocBoundry(size, align, boundry) => BoundryKeeps(s, size, align, boundry, start, end);
    case FreeAligned(ptr) => FreeAlignedKeeps(s, ptr, start, end);
  }

  // ----- runs -----

  ghost predicate Possible(s: State, ops: seq<Op>)
    decreases |ops|
  {
    ops == [] || (Enabled(s, ops[0]) && Possible(Step(s, ops[0]), ops[1..]))
  }

  ghost function Run(s: State, ops: seq<Op>): State
    requires Possible(s, ops)
    decreases |ops|
  {
    if ops == [] then s else Run(Step(s, ops[0]), ops[1..])
  }

  ghost function Initial(start: nat, end: nat): State
    requires start + HEADER <= end
  {
    State(R.Initial(start, end), map[], map[])
  }

  lemma {:induction false} RunKeeps(s: State, ops: seq<Op>, start: nat, end: nat)
    requires Inv(s, start, end) && Possible(s, ops)
    ensures Inv(Run(s, ops), start, end)
    decreases |ops|
  {
    hide Inv, Step, Enabled;
    if ops != [] {
      StepKeeps(s, ops[0], start, end);
      RunKeeps(Step(s, ops[0]), ops[1..], start, end);
    }
  }

  lemma InitialInv(start: nat, end: nat)
    requires start + HEADER <= end < U64 && Multiple(start, 16)
    ensures Inv(Initial(start, end), start, end)
  {
    hide Multiple;
  }

  /** The bytes [lo, hi) belong to this pointer alone: no header, no other aligned pointer with
      its word and bytes, and no plain pointer's bytes meet them. */
  ghost predicate Exclusive(s: State, start: nat, end: nat, q: nat, lo: nat, hi: nat) {
    && start + HEADER <= lo && hi <= end
    && (forall b :: b in s.base.blocks ==> hi <= b.addr || b.addr + HEADER <= lo)
    && (forall r: nat :: r in s.cut && r != q ==> hi <= r - WORD || r + s.cut[r].size <= lo)
    && (forall p: nat :: Plain(s, p) && p != q && s.base.live[p] <= U64 - 16 ==> hi <= p || p + s.base.live[p] <= lo)
  }

  /** Two used blocks with different payloads lie apart. */
  lemma BlocksApart(bs: seq<Block>, b: Block, c: Block)
    requires Contiguous(bs) && b in bs && c in bs && b != c
    ensures b.End() <= c.addr || c.End() <= b.addr
  {
    var i :| 0 <= i < |bs| && bs[i] == b;
    var j :| 0 <= j < |bs| && bs[j] == c;
    Disjoint(bs, i, j);
  }

  lemma CutExclusive(s: State, start: nat, end: nat, q: nat)
    requires Inv(s, start, end) && q in s.cut
    ensures q >= WORD && Exclusive(s, start, end, q, q - WORD, q + s.cut[q].size)
  {
    hide R.Inv, Multiple, Crosses, WellFormed, Coalesced, Contiguous, Round16;
    InvParts(s, start, end);
    assert CutOk(s, q);
    var bs := s.base.blocks;
    var b :| Sits(bs, s.words, q, s.cut[q], b);
    InBlock(bs, b, start, end);
    forall c | c in bs
      ensures q + s.cut[q].size <= c.addr || c.addr + HEADER <= q - WORD
    {
      if c != b {
        BlocksApart(bs, b, c);
      }
    }
    forall r: nat | r in s.cut && r != q
      ensures q + s.cut[q].size <= r - WORD || r + s.cut[r].size <= q - WORD
    {
      assert CutOk(s, r);
      var d :| Sits(bs, s.words, r, s.cut[r], d);
      BlocksApart(bs, b, d);
    }
    forall p: nat | Plain(s, p) && p != q && s.base.live[p] <= U64 - 16
      ensures q + s.cut[q].size <= p || p + s.base.live[p] <= q - WORD
    {
      var d := R.LiveBlock(s.base, start, end, p);
      LiveFits(s, d);
      BlocksApart(bs, b, d);
    }
  }

  lemma LiveFits(s: State, d: Block)
    requires R.Agree(s.base.blocks, s.base.live) && d in Used(s.base.blocks)
    ensures d.Payload() in s.base.live
    ensures s.base.live[d.Payload()] <= U64 - 16 ==> d.size >= s.base.live[d.Payload()]
  {
    assert R.Covers(s.base.live, d);
  }

  lemma InBlock(bs: seq<Block>, b: Block, start: nat, end: nat)
    requires WellFormed(bs, start, end) && b in bs
    ensures start <= b.addr && b.End() <= end
  {
    var i :| 0 <= i < |bs| && bs[i] == b;
    Within(bs, start, end, i);
  }

  /** In every reachable heap every outstanding aligned pointer is aligned, crosses none of its
      boundaries, still has the word that leads its free to the raw block, and owns that word
      and its bytes alone. */
  lemma Safety(ops: seq<Op>, start: nat, end: nat, q: nat)
    requires start + HEADER <= end < U64 && Multiple(start, 16)
    requires Possible(Initial(start, end), ops) && q in Run(Initial(start, end), ops).cut
    ensures var s := Run(Initial(start, end), ops);
            var c := s.cut[q];
            && Multiple(q, AtLeastOne(c.align)) && q >= WORD
            && (c.boundry > 0 ==> !Crosses(q, c.size, c.boundry))
            && q - WORD in s.words && s.words[q - WORD] == c.raw
            && Exclusive(s, start, end, q, q - WORD, q + c.size)
  {
    hide Possible, Run, Multiple, Crosses, Exclusive, R.Inv;
    InitialInv(start, end);
    RunKeeps(Initial(start, end), ops, start, end);
    var s := Run(Initial(start, end), ops);
    CutExclusive(s, start, end, q);
    assert CutOk(s, q);
    var b :| Sits(s.base.blocks, s.words, q, s.cut[q], b);
  }

  /** Once every plain and every aligned pointer has been freed, in whatever order, the block
      list is as heap_init left it. */
  lemma Recovery(ops: seq<Op>, start: nat, end: nat)
    requires start + HEADER <= end < U64 && Multiple(start, 16)
    requires Possible(Initial(start, end), ops)
    requires Run(Initial(start, end), ops).cut == map[]
    requires forall p :: !Plain(Run(Initial(start, end), ops), p)
    ensures Run(Initial(start, end), ops).base == R.Initial(start, end)
  {
    hide Possible, Run, Multiple, Cuts;
    InitialInv(start, end);
    RunKeeps(Initial(start, end), ops, start, end);
    var s := Run(Initial(start, end), ops);
    forall p
      ensures p !in s.base.live
    {
      assert !Plain(s, p);
    }
    assert s.base.live == map[];
    NothingUsed(s);
    AllFreeIsInitial(s.base.blocks, start, end);
  }

  lemma NothingUsed(s: State)
    requires R.Agree(s.base.blocks, s.base.live) && s.base.live == map[]
    ensures Used(s.base.blocks) == {}
  {
    forall b | b in Used(s.base.blocks)
      ensures b.Payload() in s.base.live
    {
      LiveFits(s, b);
    }
  }

  // ----- the code follows the run -----

  method ExecuteOne(h: H.Heap, op: Op, ghost s: State)
    requires h.Valid() && h.Blocks() == s.base.blocks && h.words == s.words
    requires Inv(s, h.start, h.end) && Enabled(s, op)
    modifies h`mem, h`spine, h`words
    ensures h.Valid() && h.Blocks() == Step(s, op).base.blocks && h.words == Step(s, op).words
  {
    hide AlignSpec, BoundrySpec, R.Step, Cuts, Fair, R.Inv;
    match op {
      case Malloc(size) =>
        R.ExecuteOne(h, R.Malloc(size), s.base);
      case Free(ptr) =>
        R.ExecuteOne(h, R.Free(ptr), s.base);
      case MallocAlign(size, align) =>
        FairBounds(size, align, 0);
        AlignKeeps(s, size, align, h.start, h.end);
        var _ := A.MallocAlign(h, size, align);
      case MallocBoundry(size, align, boundry) =>
        FairBounds(size, align, boundry);
        BoundryKeeps(s, size, align, boundry, h.start, h.end);
        var _, _ := A.MallocBoundry(h, size, align, boundry);
      case FreeAligned(ptr) =>
        ExecuteFree(h, ptr, s);
    }
  }

  lemma FairBounds(size: nat, align: nat, boundry: nat)
    requires Fair(size, align, boundry)
    ensures size < U64 && align < U64 && boundry < U64
  {
  }

  method ExecuteFree(h: H.Heap, ptr: nat, ghost s: State)
    requires h.Valid() && h.Blocks() == s.base.blocks && h.words == s.words
    requires Inv(s, h.start, h.end) && Enabled(s, FreeAligned(ptr))
    modifies h`mem, h`spine
    ensures h.Valid() && h.Blocks() == Step(s, FreeAligned(ptr)).base.blocks
  {
    hide R.IndexOf, R.Inv, Release, Cuts, R.Step, Owns;
    if ptr == H.NULL {
      return;
    }
    CutIndex(s, ptr, h.start, h.end);
    FreeBase(s.base, s.cut[ptr].raw, h.start, h.end);
    FreeAlign(h, ptr, R.IndexOf(s.base.blocks, s.cut[ptr].raw));
  }

  /** The pointer code follows every mixed run step by step. */
  method Execute(h: H.Heap, ops: seq<Op>)
    requires h.Valid() && h.start + HEADER <= h.end && h.end < U64 && Multiple(h.start, 16)
    requires h.Blocks() == R.Initial(h.start, h.end).blocks && h.words == map[]
    requires Possible(Initial(h.start, h.end), ops)
    modifies h`mem, h`spine, h`words
    ensures h.Valid()
    ensures h.Blocks() == Run(Initial(h.start, h.end), ops).base.blocks && h.words == Run(Initial(h.start, h.end), ops).words
  {
    hide Inv, Step, Enabled, Multiple;
    ghost var s := Initial(h.start, h.end);
    InitialInv(h.start, h.end);
    for n := 0 to |ops|
      invariant h.Valid() && h.Blocks() == s.base.blocks && h.words == s.words && Inv(s, h.start, h.end)
      invariant Possible(s, ops[n..])
      invariant Run(s, ops[n..]) == Run(Initial(h.start, h.end), ops)
    {
      ghost var todo := ops[n..];
      assert todo[0] == ops[n] && todo[1..] == ops[n + 1..];
      StepKeeps(s, ops[n], h.start, h.end);
      ExecuteOne(h, ops[n], s);
      s := Step(s, ops[n]);
    }
  }

  /** The block of an aligned pointer is found by its raw pointer. */
  lemma CutIndex(s: State, q: nat, start: nat, end: nat)
    requires Inv(s, start, end) && q in s.cut
    ensures s.cut[q].raw in s.base.live && s.cut[q].raw != H.NULL
    ensures var k := R.IndexOf(s.base.blocks, s.cut[q].raw);
            k < |s.base.blocks| && Owns(s.base.blocks, s.words, q, s.base.blocks[k])
  {
    hide R.Inv, Multiple, Crosses, R.IndexOf;
    InvParts(s, start, end);
    assert CutOk(s, q);
    var b :| Sits(s.base.blocks, s.words, q, s.cut[q], b);
    R.FoundUsed(s.base, s.cut[q].raw);
    var k := R.IndexOf(s.base.blocks, s.cut[q].raw);
    R.SamePayload(s.base.blocks, b, s.base.blocks[k]);
  }
}
