/** Aligned and boundary-respecting allocation on top of malloc. The raw pointer is kept
    in the word in front of the address handed out. */
module AlignedHeap {
  import opened Machine
  import opened BlockList
  import H = Heap

  /** sizeof(heap::AlignHeader) */
  const WORD: nat := 8

  /** `need` bytes were taken from block i, `ptr` lies in them with room for `size` bytes,
      and the word in front of it holds the raw pointer. */
  ghost predicate Served(bs: seq<Block>, words: map<nat, nat>, i: nat, need: nat,
                         bs': seq<Block>, words': map<nat, nat>, ptr: nat, size: nat) {
    && i < |bs| && Fits(bs[i], need)
    && bs' == Alloc(bs, i, need)
    && bs[i].Payload() + WORD <= ptr && ptr + size <= bs[i].Payload() + bs'[i].size
    && words' == words[ptr - WORD := bs[i].Payload()]
  }

  /** `ptr` was cut out of the allocated block `b`, and the word in front of it says so. */
  ghost predicate Owns(bs: seq<Block>, words: map<nat, nat>, ptr: nat, b: Block) {
    && b in Used(bs)
    && b.Payload() + WORD <= ptr <= b.End()
    && ptr - WORD in words && words[ptr - WORD] == b.Payload()
  }

  /** Serving a request keeps every word in front of every earlier pointer. */
  lemma ServedOwns(bs: seq<Block>, words: map<nat, nat>, i: nat, need: nat,
                   bs': seq<Block>, words': map<nat, nat>, ptr: nat, size: nat, start: nat, end: nat)
    requires WellFormed(bs, start, end) && Multiple(need, 16)
    requires Served(bs, words, i, need, bs', words', ptr, size)
    ensures Owns(bs', words', ptr, bs'[i])
    ensures forall q, c :: Owns(bs, words, q, c) ==> Owns(bs', words', q, c) && c != bs'[i]
  {
    AllocUsed(bs, i, need);
    AllocKeeps(bs, i, need, start, end);
    forall q, c | Owns(bs, words, q, c)
      ensures Owns(bs', words', q, c) && c != bs'[i]
    {
      var j :| 0 <= j < |bs'| && bs'[j] == c;
      Disjoint(bs', i, j);
    }
  }

  /** The block found through the word is the raw block, and giving it back restores the
      heap: what free_align and free_boundry undo. */
  lemma ServedRestores(bs: seq<Block>, words: map<nat, nat>, i: nat, need: nat,
                       bs': seq<Block>, words': map<nat, nat>, ptr: nat, size: nat)
    requires Contiguous(bs) && Coalesced(bs)
    requires Served(bs, words, i, need, bs', words', ptr, size)
    ensures words'[ptr - WORD] == bs'[i].Payload() && Release(bs', i) == bs
  {
    AllocReleaseRestores(bs, i, need);
  }

  /** Freeing one block leaves the words of all others in place. */
  lemma ReleaseOwns(bs: seq<Block>, words: map<nat, nat>, k: nat, q: nat, c: Block)
    requires Contiguous(bs) && Coalesced(bs) && k < |bs|
    requires Owns(bs, words, q, c) && c != bs[k]
    ensures Owns(Release(bs, k), words, q, c)
  {
    ReleaseUsed(bs, k);
  }

  /** malloc_align and malloc_boundry take a zero alignment for one. */
  function AtLeastOne(align: nat): nat {
    if align == 0 then 1 else align
  }

  /** The first aligned address that leaves room for the word behind `raw`. */
  function FirstAligned(raw: nat, a: nat): nat
    requires a > 0
  {
    var base := Wrap64(raw + WORD);
    Mask(Wrap64(base + a - 1), a)
  }

  lemma FirstAlignedIs(raw: nat, a: nat, size: nat)
    requires a > 0 && PowerOfTwo(a) && raw + size + a + WORD < U64
    ensures var p := FirstAligned(raw, a);
            && p == AlignUp(raw + WORD, a) && Multiple(p, a)
            && raw + WORD <= p && p + size < raw + size + a + WORD
            && Wrap64(p + U64 - WORD) == p - WORD
  {
    MaskAligns(raw + WORD + a - 1, a);
  }

  /** The block list, the words, the pointer returned and the number of the error message
      printed (0 for none) after a call. */
  datatype Result = Result(blocks: seq<Block>, words: map<nat, nat>, ptr: nat, error: nat)

  function AlignSpec(bs: seq<Block>, words: map<nat, nat>, size: nat, a: nat): Result
    requires a > 0
  {
    var need := Round16(Wrap64(size + a + WORD));
    var i := FirstFit(bs, need);
    if i == |bs| then Result(bs, words, H.NULL, 0)
    else
      var p := FirstAligned(bs[i].Payload(), a);
      Result(Alloc(bs, i, need), words[Wrap64(p + U64 - WORD) := bs[i].Payload()], p, 0)
  }

  method MallocAlign(h: H.Heap, size: nat, align: nat) returns (ptr: nat)
    requires h.Valid() && size < U64 && align < U64
    modifies h`mem, h`spine, h`words
    ensures h.Valid()
    ensures Result(h.Blocks(), h.words, ptr, 0) == AlignSpec(old(h.Blocks()), old(h.words), size, AtLeastOne(align))
  {
    ptr := MallocPositive(h, size, AtLeastOne(align));
  }

  /** malloc_align behind its first line. */
  method MallocPositive(h: H.Heap, size: nat, align: nat) returns (ptr: nat)
    requires h.Valid() && size < U64 && 0 < align
    modifies h`mem, h`spine, h`words
    ensures h.Valid()
    ensures Result(h.Blocks(), h.words, ptr, 0) == AlignSpec(old(h.Blocks()), old(h.words), size, align)
  {
    hide Wrap64, Mask, Alloc, Round16;
    var total := Wrap64(size + align + WORD);
    var raw := h.Malloc(total);
    if raw == H.NULL {
      return H.NULL;
    }
    var base := Wrap64(raw + WORD);
    ptr := Mask(Wrap64(base + align - 1), align);
    h.words := h.words[Wrap64(ptr + U64 - WORD) := raw];
  }

  /** Where the block of an unwrapped request lies. */
  lemma Placement(bs: seq<Block>, i: nat, total: nat, start: nat, end: nat)
    requires WellFormed(bs, start, end) && end < U64 && total <= U64 - 16
    requires i < |bs| && Fits(bs[i], Round16(total))
    ensures var r := Alloc(bs, i, Round16(total));
            && r[i].addr == bs[i].addr && r[i].size >= total && r[i].End() <= end
  {
    AllocKeeps(bs, i, Round16(total), start, end);
    Within(Alloc(bs, i, Round16(total)), start, end, i);
  }

  /** With a sum of at most 2^64 - 16 malloc_align fails only for want of a block, and what
      it returns is aligned, has room for the size and is owned. */
  lemma AlignServes(bs: seq<Block>, words: map<nat, nat>, size: nat, a: nat, start: nat, end: nat)
    requires WellFormed(bs, start, end) && end < U64 && a > 0 && PowerOfTwo(a)
    requires size + a + WORD <= U64 - 16
    ensures var need := Round16(size + a + WORD);
            var i := FirstFit(bs, need);
            var r := AlignSpec(bs, words, size, a);
            if i == |bs| then r == Result(bs, words, H.NULL, 0)
            else
              && Multiple(r.ptr, a) && Served(bs, words, i, need, r.blocks, r.words, r.ptr, size)
              && r.error == 0 && r.ptr == AlignUp(bs[i].Payload() + 8, a)
  {
    hide FirstAligned, PowerOfTwo, Multiple, WellFormed, Round16, FirstFit, AlignUp, Alloc, Fits;
    var total := size + a + WORD;
    var i := FirstFit(bs, Round16(total));
    if i < |bs| {
      Placement(bs, i, total, start, end);
      FirstAlignedIs(bs[i].Payload(), a, size);
    }
  }

  /** free_align and free_boundry: the word in front of the pointer leads to the raw block. */
  method FreeAlign(h: H.Heap, ptr: nat, ghost k: nat)
    requires h.Valid()
    requires ptr == H.NULL || (k < |h.Blocks()| && Owns(h.Blocks(), h.words, ptr, h.Blocks()[k]))
    modifies h`mem, h`spine
    ensures h.Valid()
    ensures h.Blocks() == if ptr == H.NULL then old(h.Blocks()) else Release(old(h.Blocks()), k)
    ensures ptr != H.NULL ==>
      forall q, c :: Owns(old(h.Blocks()), h.words, q, c) && c != old(h.Blocks()[k]) ==> Owns(h.Blocks(), h.words, q, c)
  {
    if ptr == H.NULL {
      return;
    }
    ghost var bs := h.Blocks();
    h.Free(h.words[ptr - WORD], k);
    forall q, c | Owns(bs, h.words, q, c) && c != bs[k]
      ensures Owns(h.Blocks(), h.words, q, c)
    {
      ReleaseOwns(bs, h.words, k, q, c);
    }
  }

  // ----- boundaries -----

  /** [p, p + size) meets two boundry-sized windows, by the code's own test. */
  predicate Crosses(p: nat, size: nat, boundry: nat)
    requires boundry > 0 && p > 0
  {
    AlignDown(p, boundry) != AlignDown(p + size - 1, boundry)
  }

  /** The overflow guard: `size > ~0 - align - boundry - sizeof(AlignHeader)`. */
  predicate Guarded(size: nat, align: nat, boundry: nat)
    requires align < U64 && boundry < U64
  {
    size > Wrap64(3 * U64 - 1 - align - boundry - WORD)
  }

  /** The code's test, with its 64-bit arithmetic. */
  predicate CrossesWrapped(p: nat, size: nat, boundry: nat)
    requires boundry > 0
  {
    Mask(p, boundry) != Mask(Wrap64(p + size + U64 - 1), boundry)
  }

  /** A window-aligned address crosses exactly when the size is zero or above the window. */
  lemma CrossesAligned(p: nat, size: nat, boundry: nat)
    requires boundry > 0 && p > 0 && Multiple(p, boundry)
    ensures Crosses(p, size, boundry) <==> size > boundry || size == 0
  {
    AlignDownFrom(p, p, boundry);
    AlignDownFrom(p + size - 1, p, boundry);
  }

  lemma NoWrapCrosses(p: nat, size: nat, boundry: nat)
    requires boundry > 0 && PowerOfTwo(boundry) && p > 0 && p + size < U64
    ensures CrossesWrapped(p, size, boundry) == Crosses(p, size, boundry)
  {
    MaskAligns(p, boundry);
    MaskAligns(p + size - 1, boundry);
    assert Wrap64(p + size + U64 - 1) == p + size - 1;
  }

  /** Where the pointer goes inside the raw block, or the error message. */
  datatype Placed = At(ptr: nat) | Refused(error: nat)

  function Place(raw: nat, total: nat, size: nat, a: nat, boundry: nat): Placed
    requires a > 0
  {
    var first := FirstAligned(raw, a);
    if boundry > 0 && CrossesWrapped(first, size, boundry) then
      var next := Mask(Wrap64(first + boundry), boundry);
      if CrossesWrapped(next, size, boundry) then Refused(4) else CheckEnd(next, size, raw, total)
    else
      CheckEnd(first, size, raw, total)
  }

  function CheckEnd(p: nat, size: nat, raw: nat, total: nat): Placed {
    if Wrap64(p + size) > Wrap64(raw + total) then Refused(5) else At(p)
  }

  /** What is placed is aligned, inside the raw block and inside one window. */
  ghost predicate WellPlaced(p: nat, raw: nat, total: nat, size: nat, a: nat, boundry: nat)
    requires a > 0
  {
    && Multiple(p, a) && raw + WORD <= p && p + size < raw + total
    && (boundry > 0 ==> !Crosses(p, size, boundry))
  }

  lemma PlaceFirst(raw: nat, size: nat, a: nat, boundry: nat)
    requires raw > 0 && raw + size + a + boundry + WORD < U64 && a > 0 && PowerOfTwo(a)
    requires boundry > 0 ==> PowerOfTwo(boundry) && !Crosses(AlignUp(raw + WORD, a), size, boundry)
    ensures var p := AlignUp(raw + WORD, a);
            var total := size + a + boundry + WORD;
            Place(raw, total, size, a, boundry) == At(p) && WellPlaced(p, raw, total, size, a, boundry)
  {
    FirstAlignedIs(raw, a, size);
    if boundry > 0 {
      NoWrapCrosses(AlignUp(raw + WORD, a), size, boundry);
    }
  }

  /** The boundary correction moves to the next window; it cannot leave the raw block, so
      error 5 has no cause, and error 4 has exactly this one. */
  lemma PlaceNext(raw: nat, size: nat, a: nat, boundry: nat)
    requires raw > 0 && raw + size + a + boundry + WORD < U64
    requires PowerOfTwo(a) && a > 0 && boundry > 0 && PowerOfTwo(boundry)
    requires Crosses(AlignUp(raw + WORD, a), size, boundry)
    ensures var total := size + a + boundry + WORD;
            var q := AlignDown(AlignUp(raw + WORD, a) + boundry, boundry);
            if size > boundry || size == 0 then
              Place(raw, total, size, a, boundry) == Refused(4)
            else
              Place(raw, total, size, a, boundry) == At(q) && WellPlaced(q, raw, total, size, a, boundry)
  {
    hide PowerOfTwo, Crosses, CrossesWrapped, WellPlaced, AlignDown, CheckEnd;
    var p := AlignUp(raw + WORD, a);
    FirstAlignedIs(raw, a, size);
    NoWrapCrosses(p, size, boundry);
    MaskAligns(p + boundry, boundry);
    NextPlaced(raw, p, size, a, boundry);
  }

  lemma NextPlaced(raw: nat, p: nat, size: nat, a: nat, boundry: nat)
    requires raw > 0 && raw + size + a + boundry + WORD < U64
    requires PowerOfTwo(a) && a > 0 && boundry > 0 && PowerOfTwo(boundry)
    requires Multiple(p, a) && raw + WORD <= p < raw + WORD + a && Crosses(p, size, boundry)
    ensures var total := size + a + boundry + WORD;
            var q := AlignDown(p + boundry, boundry);
            && Wrap64(p + boundry) == p + boundry
            && CrossesWrapped(q, size, boundry) == (size > boundry || size == 0)
            && (0 < size <= boundry ==>
                  CheckEnd(q, size, raw, total) == At(q) && WellPlaced(q, raw, total, size, a, boundry))
  {
    var q := AlignDown(p + boundry, boundry);
    NoWrapCrosses(q, size, boundry);
    CrossesAligned(q, size, boundry);
    ShiftAligned(p, q, size, a, boundry);
  }

  lemma ShiftAligned(p: nat, q: nat, size: nat, a: nat, boundry: nat)
    requires PowerOfTwo(a) && PowerOfTwo(boundry) && a > 0 && boundry > 0 && p > 0
    requires Multiple(p, a) && Multiple(q, boundry)
    ensures Crosses(p, size, boundry) && 0 < size <= boundry ==> Multiple(q, a)
  {
    if a <= boundry {
      MultipleOfPower(q, boundry, a);
    } else {
      MultipleOfPower(p, a, boundry);
      CrossesAligned(p, size, boundry);
    }
  }

  /** The one reason for error 4: from the first aligned address the request crosses a
      boundary, and the start of a window is no better. */
  predicate BadWindow(raw: nat, size: nat, a: nat, boundry: nat)
    requires a > 0 && raw > 0
  {
    && boundry > 0
    && Crosses(AlignUp(raw + WORD, a), size, boundry)
    && (size > boundry || size == 0)
  }

  lemma PlaceDecides(raw: nat, size: nat, a: nat, boundry: nat)
    requires raw > 0 && raw + size + a + boundry + WORD < U64
    requires PowerOfTwo(a) && a > 0 && (boundry == 0 || PowerOfTwo(boundry))
    ensures var total := size + a + boundry + WORD;
            var d := Place(raw, total, size, a, boundry);
            if BadWindow(raw, size, a, boundry) then d == Refused(4)
            else d.At? && WellPlaced(d.ptr, raw, total, size, a, boundry)
  {
    if boundry > 0 && Crosses(AlignUp(raw + WORD, a), size, boundry) {
      PlaceNext(raw, size, a, boundry);
    } else {
      PlaceFirst(raw, size, a, boundry);
    }
  }

  /** What is placed lies as low as it can: every lower aligned address behind the word crosses a
      boundary. */
  lemma PlaceLeast(raw: nat, size: nat, a: nat, boundry: nat, x: nat)
    requires raw > 0 && raw + size + a + boundry + WORD < U64
    requires PowerOfTwo(a) && a > 0 && (boundry == 0 || PowerOfTwo(boundry))
    requires !BadWindow(raw, size, a, boundry) && raw + 8 <= x && Multiple(x, a)
    ensures var d := Place(raw, size + a + boundry + WORD, size, a, boundry);
            && d.At? && (x < d.ptr ==> boundry > 0 && Crosses(x, size, boundry))
  {
    hide PowerOfTwo, CrossesWrapped, AlignDown, CheckEnd, Place;
    var p := AlignUp(raw + WORD, a);
    AlignDownFrom(x, x, a);
    NotBefore(raw + WORD, x, a);
    if boundry > 0 && Crosses(p, size, boundry) {
      PlaceNext(raw, size, a, boundry);
      if x < AlignDown(p + boundry, boundry) {
        StillCrosses(p, x, size, boundry);
      }
    } else {
      PlaceFirst(raw, size, a, boundry);
      FirstPlaced(raw, size, a, boundry);
    }
  }

  /** No lower aligned address would do. */
  predicate Least(p: nat, raw: nat, size: nat, a: nat, boundry: nat)
    requires a > 0 && raw > 0
  {
    forall x: nat :: raw + 8 <= x < p && Multiple(x, a) ==> boundry > 0 && Crosses(x, size, boundry)
  }

  lemma PlacedLeast(raw: nat, size: nat, a: nat, boundry: nat)
    requires raw > 0 && raw + size + a + boundry + WORD < U64
    requires PowerOfTwo(a) && a > 0 && (boundry == 0 || PowerOfTwo(boundry))
    requires !BadWindow(raw, size, a, boundry)
    ensures var d := Place(raw, size + a + boundry + WORD, size, a, boundry);
            d.At? && Least(d.ptr, raw, size, a, boundry)
  {
    hide PowerOfTwo, BadWindow, Place, Crosses;
    PlaceLeast(raw, size, a, boundry, AlignUp(raw + WORD, a));
    var d := Place(raw, size + a + boundry + WORD, size, a, boundry);
    forall x: nat | raw + 8 <= x < d.ptr && Multiple(x, a)
      ensures boundry > 0 && Crosses(x, size, boundry)
    {
      PlaceLeast(raw, size, a, boundry, x);
    }
  }

  lemma FirstPlaced(raw: nat, size: nat, a: nat, boundry: nat)
    requires raw > 0 && raw + size + a + boundry + WORD < U64 && a > 0 && PowerOfTwo(a)
    requires boundry > 0 ==> PowerOfTwo(boundry) && !Crosses(AlignUp(raw + WORD, a), size, boundry)
    ensures Place(raw, size + a + boundry + WORD, size, a, boundry) == At(AlignUp(raw + WORD, a))
  {
    PlaceFirst(raw, size, a, boundry);
  }

  /** The first aligned address is the least. */
  lemma NotBefore(y: nat, x: nat, a: nat)
    requires a > 0 && y <= x && Multiple(x, a)
    ensures AlignUp(y, a) <= x
  {
    hide AlignDown;
    AlignDownFrom(y + a - 1, x, a);
  }

  /** Below the next window a request that crosses goes on crossing. */
  lemma StillCrosses(p: nat, x: nat, size: nat, boundry: nat)
    requires boundry > 0 && size > 0 && 0 < p <= x < AlignDown(p + boundry, boundry) && Crosses(p, size, boundry)
    ensures Crosses(x, size, boundry)
  {
    hide AlignDown;
    var w := AlignDown(p, boundry);
    AlignDownFrom(p + boundry, w + boundry, boundry);
    AlignDownFrom(x, w, boundry);
    AlignDownFrom(p + size - 1, w, boundry);
    AlignDownFrom(x + size - 1, w, boundry);
  }

  /** The state after the placement has been decided. */
  function Finish(bs: seq<Block>, words: map<nat, nat>, i: nat, need: nat, d: Placed): Result
    requires i < |bs| && Fits(bs[i], need)
  {
    match d
    case Refused(error) => Result(bs, words, H.NULL, error)
    case At(p) => Result(Alloc(bs, i, need), words[Wrap64(p + U64 - WORD) := bs[i].Payload()], p, 0)
  }

  /** malloc_boundry behind its checks. */
  function PlacedSpec(bs: seq<Block>, words: map<nat, nat>, total: nat, size: nat, a: nat, boundry: nat): Result
    requires a > 0 && total < U64
  {
    var i := FirstFit(bs, Round16(total));
    if i == |bs| then Result(bs, words, H.NULL, 3)
    else Finish(bs, words, i, Round16(total), Place(bs[i].Payload(), total, size, a, boundry))
  }

  function BoundrySpec(bs: seq<Block>, words: map<nat, nat>, size: nat, align: nat, boundry: nat): Result
    requires align < U64 && boundry < U64
  {
    if Guarded(size, align, boundry) then Result(bs, words, H.NULL, 1)
    else if boundry != 0 && And(boundry, boundry - 1) != 0 then Result(bs, words, H.NULL, 2)
    else
      var a := AtLeastOne(align);
      PlacedSpec(bs, words, Wrap64(size + a + boundry + WORD), size, a, boundry)
  }

  method MallocBoundry(h: H.Heap, size: nat, align: nat, boundry: nat) returns (ptr: nat, error: nat)
    requires h.Valid() && size < U64 && align < U64 && boundry < U64
    modifies h`mem, h`spine, h`words
    ensures h.Valid()
    ensures Result(h.Blocks(), h.words, ptr, error)
         == BoundrySpec(old(h.Blocks()), old(h.words), size, align, boundry)
  {
    hide PlacedSpec, And, Wrap64;
    if size > Wrap64(3 * U64 - 1 - align - boundry - WORD) {
      return H.NULL, 1;
    }
    if boundry != 0 && And(boundry, boundry - 1) != 0 {
      return H.NULL, 2;
    }
    var a := if align == 0 then 1 else align;
    ptr, error := MallocPlaced(h, Wrap64(size + a + boundry + WORD), size, a, boundry);
  }

  /** malloc_boundry behind its checks. */
  method MallocPlaced(h: H.Heap, total: nat, size: nat, a: nat, boundry: nat) returns (ptr: nat, error: nat)
    requires h.Valid() && total < U64 && a > 0
    modifies h`mem, h`spine, h`words
    ensures h.Valid()
    ensures Result(h.Blocks(), h.words, ptr, error)
         == PlacedSpec(old(h.Blocks()), old(h.words), total, size, a, boundry)
  {
    hide Round16, Alloc, Place, Wrap64;
    ghost var bs := h.Blocks();
    ghost var i := FirstFit(bs, Round16(total));
    var raw := h.Malloc(total);
    if raw == H.NULL {
      return H.NULL, 3;
    }
    var aligned, refused := Settle(raw, total, size, a, boundry);
    if refused != 0 {
      GiveBack(h, raw, bs, i, Round16(total));
      return H.NULL, refused;
    }
    h.words := h.words[Wrap64(aligned + U64 - WORD) := raw];
    return aligned, 0;
  }

  /** The alignment, the boundary correction and the two checks, by error number. */
  method Settle(raw: nat, total: nat, size: nat, a: nat, boundry: nat) returns (aligned: nat, refused: nat)
    requires a > 0
    ensures Place(raw, total, size, a, boundry) == if refused == 0 then At(aligned) else Refused(refused)
  {
    hide Mask, Wrap64;
    var base := Wrap64(raw + WORD);
    aligned := Mask(Wrap64(base + a - 1), a);
    if boundry != 0 {
      var startBlock := Mask(aligned, boundry);
      var endBlock := Mask(Wrap64(aligned + size + U64 - 1), boundry);
      if startBlock != endBlock {
        aligned := Mask(Wrap64(aligned + boundry), boundry);
        endBlock := Mask(Wrap64(aligned + size + U64 - 1), boundry);
        if Mask(aligned, boundry) != endBlock {
          return aligned, 4;
        }
      }
    }
    if Wrap64(aligned + size) > Wrap64(raw + total) {
      return aligned, 5;
    }
    refused := 0;
  }

  /** The free of a refused placement. */
  method GiveBack(h: H.Heap, raw: nat, ghost bs: seq<Block>, ghost i: nat, ghost need: nat)
    requires h.Valid() && Coalesced(bs) && Contiguous(bs)
    requires i < |bs| && Fits(bs[i], need) && raw == bs[i].Payload() && h.Blocks() == Alloc(bs, i, need)
    modifies h`mem, h`spine
    ensures h.Valid() && h.Blocks() == bs
  {
    hide Alloc;
    AllocReleaseRestores(bs, i, need);
    h.Free(raw, i);
  }

  lemma FinishServes(bs: seq<Block>, words: map<nat, nat>, i: nat, total: nat, size: nat, a: nat, boundry: nat, p: nat)
    requires i < |bs| && total <= U64 - 16 && Fits(bs[i], Round16(total)) && a > 0
    requires Alloc(bs, i, Round16(total))[i].size >= total && bs[i].Payload() + total < U64
    requires WellPlaced(p, bs[i].Payload(), total, size, a, boundry)
    ensures var r := Finish(bs, words, i, Round16(total), At(p));
            Served(bs, words, i, Round16(total), r.blocks, r.words, r.ptr, size)
  {
    assert Wrap64(p + U64 - WORD) == p - WORD;
  }

  lemma PlacedServes(bs: seq<Block>, words: map<nat, nat>, size: nat, a: nat, boundry: nat, start: nat, end: nat)
    requires WellFormed(bs, start, end) && end < U64
    requires PowerOfTwo(a) && a > 0 && (boundry == 0 || PowerOfTwo(boundry))
    requires size + a + boundry + WORD <= U64 - 16
    ensures var total := size + a + boundry + WORD;
            var i := FirstFit(bs, Round16(total));
            var r := PlacedSpec(bs, words, total, size, a, boundry);
            if i == |bs| then r == Result(bs, words, H.NULL, 3)
            else if BadWindow(bs[i].Payload(), size, a, boundry) then r == Result(bs, words, H.NULL, 4)
            else
              && r.error == 0
              && WellPlaced(r.ptr, bs[i].Payload(), total, size, a, boundry)
              && Least(r.ptr, bs[i].Payload(), size, a, boundry)
              && Served(bs, words, i, Round16(total), r.blocks, r.words, r.ptr, size)
  {
    hide Place, PowerOfTwo, BadWindow, WellPlaced, Least, Served, Round16, FirstFit, WellFormed, Fits, Alloc;
    var total := size + a + boundry + WORD;
    var i := FirstFit(bs, Round16(total));
    if i < |bs| {
      var raw := bs[i].Payload();
      Placement(bs, i, total, start, end);
      PlaceDecides(raw, size, a, boundry);
      if !BadWindow(raw, size, a, boundry) {
        PlacedLeast(raw, size, a, boundry);
        FinishServes(bs, words, i, total, size, a, boundry, Place(raw, total, size, a, boundry).ptr);
      }
    }
  }

  lemma OneIsPower(align: nat)
    requires align == 0 || PowerOfTwo(align)
    ensures PowerOfTwo(AtLeastOne(align))
  {
  }

  /** When the sum of the arguments is at most 2^64 - 16, malloc_boundry refuses exactly for
      a boundary that is no power of two, for want of a block, or for a bad window; error 5
      never shows; what it returns is the least address that is aligned and crosses no boundary,
      lies with its word inside the raw block, and is owned; and a refusal changes nothing. */
  lemma BoundryServes(bs: seq<Block>, words: map<nat, nat>, size: nat, align: nat, boundry: nat, start: nat, end: nat)
    requires WellFormed(bs, start, end) && end < U64 && align < U64 && boundry < U64
    requires align == 0 || PowerOfTwo(align)
    requires size + AtLeastOne(align) + boundry + WORD <= U64 - 16
    ensures var a := AtLeastOne(align);
            var total := size + a + boundry + WORD;
            var i := FirstFit(bs, Round16(total));
            var r := BoundrySpec(bs, words, size, align, boundry);
            if boundry > 0 && !PowerOfTwo(boundry) then r == Result(bs, words, H.NULL, 2)
            else if i == |bs| then r == Result(bs, words, H.NULL, 3)
            else if BadWindow(bs[i].Payload(), size, a, boundry) then r == Result(bs, words, H.NULL, 4)
            else
              && r.error == 0
              && WellPlaced(r.ptr, bs[i].Payload(), total, size, a, boundry)
              && Least(r.ptr, bs[i].Payload(), size, a, boundry)
              && Served(bs, words, i, Round16(total), r.blocks, r.words, r.ptr, size)
  {
    hide PlacedSpec, Guarded, PowerOfTwo, And, Wrap64, BadWindow, WellPlaced, Least, Served, Round16, WellFormed, FirstFit;
    GuardExact(size, align, boundry);
    if boundry > 0 {
      PowerTest(boundry);
    }
    OneIsPower(align);
    if boundry == 0 || PowerOfTwo(boundry) {
      PlacedServes(bs, words, size, AtLeastOne(align), boundry, start, end);
    }
  }

  /** A sum of arguments reaches malloc unshortened exactly when it is at most 2^64 - 16. */
  lemma SumReachesMalloc(sum: nat)
    ensures Round16(Wrap64(sum)) >= sum <==> sum <= U64 - 16
  {
    WrapShortens(sum);
  }

  lemma {:induction false} WrapShortens(x: nat)
    ensures x >= U64 ==> Wrap64(x) <= x - U64
  {
    if x >= U64 {
      WrapShortens(x - U64);
    }
  }

  // ----- sums that wrap -----

  /** The block taken is at most 47 bytes larger than what was asked of malloc, which is at
      most 15 bytes more than the wrapped sum, and nothing for the last 15 sums. */
  lemma TakenSize(bs: seq<Block>, i: nat, total: nat)
    requires total < U64 && i < |bs| && Fits(bs[i], Round16(total))
    ensures Alloc(bs, i, Round16(total))[i].size < Round16(total) + HEADER + MIN_SPLIT
    ensures total > U64 - 16 ==> Round16(total) == 0
    ensures total <= U64 - 16 ==> Round16(total) < total + 16
  {
  }

  /** What is served lies in the block taken. */
  lemma ServedSize(bs: seq<Block>, words: map<nat, nat>, i: nat, need: nat,
                   bs': seq<Block>, words': map<nat, nat>, ptr: nat, size: nat)
    requires Served(bs, words, i, need, bs', words', ptr, size)
    ensures size + WORD <= Alloc(bs, i, need)[i].size
  {
  }

  lemma WrapOnce(x: nat)
    requires x < 2 * U64
    ensures Wrap64(x) == if x < U64 then x else x - U64
  {
  }

  /** malloc_align has no guard: what it returns is served exactly when the sum of its
      arguments is at most 2^64 - 16. */
  lemma AlignExact(bs: seq<Block>, words: map<nat, nat>, size: nat, a: nat, start: nat, end: nat)
    requires WellFormed(bs, start, end) && end < U64 && size < U64 && a < U64 && a > 0 && PowerOfTwo(a)
    requires FirstFit(bs, Round16(Wrap64(size + a + WORD))) < |bs|
    ensures var need := Round16(Wrap64(size + a + WORD));
            var r := AlignSpec(bs, words, size, a);
            Served(bs, words, FirstFit(bs, need), need, r.blocks, r.words, r.ptr, size)
            <==> size + a + WORD <= U64 - 16
  {
    hide Served, PowerOfTwo, WellFormed, AlignSpec;
    var sum := size + a + WORD;
    PowerBelow(a);
    WrapOnce(sum);
    var need := Round16(Wrap64(sum));
    var i := FirstFit(bs, need);
    var r := AlignSpec(bs, words, size, a);
    if sum <= U64 - 16 {
      AlignServes(bs, words, size, a, start, end);
    } else if Served(bs, words, i, need, r.blocks, r.words, r.ptr, size) {
      TakenSize(bs, i, Wrap64(sum));
      ServedSize(bs, words, i, need, r.blocks, r.words, r.ptr, size);
    }
  }

  /** The overflow guard passes exactly when the size does not carry over the sum of the
      others, itself taken modulo 2^64. */
  lemma GuardExact(size: nat, align: nat, boundry: nat)
    requires size < U64 && align < U64 && boundry < U64
    ensures !Guarded(size, align, boundry) <==> size + Wrap64(align + boundry + WORD) < U64
  {
    var t := align + boundry + WORD;
    assert Wrap64(3 * U64 - 1 - t) == if t < U64 then U64 - 1 - t else if t < 2 * U64 then 2 * U64 - 1 - t else 3 * U64 - 1 - t;
  }

  /** What fails a check is refused by its number, and nothing changes. */
  lemma Refusals(bs: seq<Block>, words: map<nat, nat>, size: nat, align: nat, boundry: nat)
    requires size < U64 && align < U64 && boundry < U64
    ensures size + Wrap64(align + boundry + 8) >= U64 ==> BoundrySpec(bs, words, size, align, boundry) == Result(bs, words, 0, 1)
    ensures size + Wrap64(align + boundry + 8) < U64 && boundry > 0 && !PowerOfTwo(boundry) ==>
              BoundrySpec(bs, words, size, align, boundry) == Result(bs, words, 0, 2)
  {
    hide Guarded, PowerOfTwo, And, Wrap64, PlacedSpec;
    GuardExact(size, align, boundry);
    if boundry > 0 {
      PowerTest(boundry);
    }
  }

  /** The last check compares the two ends in 64 bits. */
  lemma EndCheck(p: nat, size: nat, raw: nat, total: nat)
    ensures CheckEnd(p, size, raw, total)
         == if (p + size) % 0x1_0000_0000_0000_0000 > (raw + total) % 0x1_0000_0000_0000_0000 then Refused(5) else At(p)
  {
    Wrap64Is(p + size);
    Wrap64Is(raw + total);
  }

  /** An alignment of zero is one of one. */
  lemma ZeroAlign(bs: seq<Block>, words: map<nat, nat>, size: nat, align: nat, boundry: nat)
    requires align < U64 && boundry < U64
    ensures AlignSpec(bs, words, size, AtLeastOne(align)) == AlignSpec(bs, words, size, if align > 0 then align else 1)
    ensures Sum(size, align, boundry) == size + (if align > 0 then align else 1) + boundry + 8
  {
  }

  /** The arguments that pass the guard although malloc will wrap or round their sum away:
      the last 16 sums before the guard closes, and two halves of the address space. */
  lemma GuardSlips(size: nat, align: nat, boundry: nat)
    requires size < U64 && align < U64 && boundry < U64
    requires (align == 0 || PowerOfTwo(align)) && (boundry == 0 || PowerOfTwo(boundry))
    ensures (!Guarded(size, align, boundry) && Sum(size, align, boundry) > U64 - 16)
            <==> ((Sum(size, align, boundry) > U64 - 16 && size + align + boundry + WORD < U64)
                  || (align == boundry == HALF && size < U64 - WORD))
  {
    hide PowerOfTwo, Guarded;
    GuardExact(size, align, boundry);
    if align > 0 {
      PowerBelow(align);
    }
    if boundry > 0 {
      PowerBelow(boundry);
    }
    WrapOnce(align + boundry + WORD);
  }

  /** In the second case the address handed out is 0 or 2^63. */
  lemma HalvesPlaced(raw: nat, total: nat, size: nat)
    requires raw + WORD < U64 && size < U64 && raw + WORD != HALF
    ensures var d := Place(raw, total, size, HALF, HALF);
            d.At? ==> d.ptr == 0 || (d.ptr == HALF && (size > 0 || raw + WORD > HALF))
  {
    hide Mask, Wrap64;
    var base := raw + WORD;
    WrapOnce(base + HALF - 1);
    MaskHalves(Wrap64(base + HALF - 1));
    var first := FirstAligned(raw, HALF);
    WrapOnce(first + HALF);
    MaskHalves(first);
    MaskHalves(Wrap64(first + HALF));
    if size == 0 {
      WrapOnce(first + U64 - 1);
      MaskHalves(Wrap64(first + U64 - 1));
    }
  }

  lemma MaskHalves(x: nat)
    requires x < U64
    ensures Mask(x, HALF) == if x < HALF then 0 else HALF
  {
    HalfPower();
    MaskAligns(x, HALF);
    AlignDownUnique(x, if x < HALF then 0 else HALF, HALF);
  }

  /** No pointer into the two halves is served by a heap on one side of 2^63. */
  lemma HalvesUnserved(bs: seq<Block>, words: map<nat, nat>, size: nat, i: nat, need: nat, total: nat, start: nat, end: nat)
    requires WellFormed(bs, start, end) && end < U64 && (end <= HALF || HALF <= start)
    requires i < |bs| && Fits(bs[i], need) && Multiple(need, 16) && size < U64
    ensures var r := Finish(bs, words, i, need, Place(bs[i].Payload(), total, size, HALF, HALF));
            !(r.error == 0 && Served(bs, words, i, need, r.blocks, r.words, r.ptr, size))
  {
    hide Place, WellFormed, Alloc, Multiple, Fits;
    var raw := bs[i].Payload();
    AllocKeeps(bs, i, need, start, end);
    InHeap(Alloc(bs, i, need), start, end, i);
    InHeap(bs, start, end, i);
    HalvesPlaced(raw, total, size);
  }

  lemma InHeap(bs: seq<Block>, start: nat, end: nat, i: nat)
    requires WellFormed(bs, start, end) && i < |bs|
    ensures start <= bs[i].addr && bs[i].End() <= end
    ensures bs[i].Payload() + WORD != HALF && (end < U64 ==> bs[i].Payload() + WORD < U64)
  {
    hide Multiple, Coalesced, Contiguous;
    Within(bs, start, end, i);
    MultipleIsMod(bs[i].addr, 16);
  }

  /** What malloc_boundry adds up, and what malloc makes of it. */
  function Sum(size: nat, align: nat, boundry: nat): nat {
    size + AtLeastOne(align) + boundry + WORD
  }

  function Need(size: nat, align: nat, boundry: nat): nat {
    Round16(Wrap64(Sum(size, align, boundry)))
  }

  /** malloc_boundry hands out a pointer that is served. */
  ghost predicate BoundryWorks(bs: seq<Block>, words: map<nat, nat>, size: nat, align: nat, boundry: nat)
    requires align < U64 && boundry < U64
  {
    var need := Need(size, align, boundry);
    var r := BoundrySpec(bs, words, size, align, boundry);
    r.error == 0 && Served(bs, words, FirstFit(bs, need), need, r.blocks, r.words, r.ptr, size)
  }

  /** The block malloc finds cannot hold the request inside one window. */
  predicate BadBlock(bs: seq<Block>, size: nat, align: nat, boundry: nat) {
    var i := FirstFit(bs, Need(size, align, boundry));
    i < |bs| && BadWindow(bs[i].Payload(), size, AtLeastOne(align), boundry)
  }

  /** On a heap on one side of 2^63, of the arguments that pass the checks exactly those with
      a sum of at most 2^64 - 16 and no bad window are served. */
  lemma BoundryExact(bs: seq<Block>, words: map<nat, nat>, size: nat, align: nat, boundry: nat, start: nat, end: nat)
    requires WellFormed(bs, start, end) && end < U64 && (end <= HALF || HALF <= start)
    requires size < U64 && align < U64 && boundry < U64
    requires (align == 0 || PowerOfTwo(align)) && (boundry == 0 || PowerOfTwo(boundry))
    requires !Guarded(size, align, boundry) && FirstFit(bs, Need(size, align, boundry)) < |bs|
    ensures BoundryWorks(bs, words, size, align, boundry)
            <==> Sum(size, align, boundry) <= U64 - 16 && !BadBlock(bs, size, align, boundry)
  {
    hide PlacedSpec, Guarded, PowerOfTwo, And, BadWindow, WellPlaced, Served, Round16, WellFormed, FirstFit, Fits, Alloc;
    if Sum(size, align, boundry) <= U64 - 16 {
      BoundryServes(bs, words, size, align, boundry, start, end);
    } else {
      BoundrySlips(bs, words, size, align, boundry, start, end);
    }
  }

  lemma BoundrySlips(bs: seq<Block>, words: map<nat, nat>, size: nat, align: nat, boundry: nat, start: nat, end: nat)
    requires WellFormed(bs, start, end) && end < U64 && (end <= HALF || HALF <= start)
    requires size < U64 && align < U64 && boundry < U64
    requires (align == 0 || PowerOfTwo(align)) && (boundry == 0 || PowerOfTwo(boundry))
    requires !Guarded(size, align, boundry) && Sum(size, align, boundry) > U64 - 16
    requires FirstFit(bs, Need(size, align, boundry)) < |bs|
    ensures !BoundryWorks(bs, words, size, align, boundry)
  {
    hide Place, Guarded, PowerOfTwo, And, Served, Round16, WellFormed, FirstFit, Fits, Alloc, Wrap64, Finish;
    var need := Need(size, align, boundry);
    var i := FirstFit(bs, need);
    var r := BoundrySpec(bs, words, size, align, boundry);
    if boundry > 0 {
      PowerTest(boundry);
    }
    GuardSlips(size, align, boundry);
    if align == boundry == HALF && size < U64 - WORD {
      HalvesUnserved(bs, words, size, i, need, Wrap64(Sum(size, align, boundry)), start, end);
    } else if Served(bs, words, i, need, r.blocks, r.words, r.ptr, size) {
      SlipSizes(size, align, boundry);
      TakenSize(bs, i, Wrap64(Sum(size, align, boundry)));
      ServedSize(bs, words, i, need, r.blocks, r.words, r.ptr, size);
    }
  }

  /** In the first case malloc is asked for nothing, and the size is far above what it gives. */
  lemma SlipSizes(size: nat, align: nat, boundry: nat)
    requires (align == 0 || PowerOfTwo(align)) && (boundry == 0 || PowerOfTwo(boundry))
    requires size + align + boundry + WORD < U64 && Sum(size, align, boundry) > U64 - 16
    ensures Need(size, align, boundry) == 0 && size >= HEADER + MIN_SPLIT
  {
    hide PowerOfTwo;
    WrapOnce(Sum(size, align, boundry));
    if align > 0 {
      PowerBelow(align);
    }
    if boundry > 0 {
      PowerBelow(boundry);
    }
  }

  /** The overflow guard leaves a gap: on every heap with a free block a request for nearly
      2^64 bytes passes, and a pointer into a block taken for 0 bytes is handed out. */
  lemma GuardGap(bs: seq<Block>, words: map<nat, nat>, start: nat, end: nat)
    requires WellFormed(bs, start, end) && end < U64 && FirstFit(bs, 0) < |bs|
    ensures var i := FirstFit(bs, 0);
            var r := BoundrySpec(bs, words, U64 - 10, 1, 0);
            && r.error == 0 && r.ptr == bs[i].Payload() + WORD
            && r.blocks == Alloc(bs, i, 0) && r.blocks[i].size < HEADER + MIN_SPLIT
            && !Served(bs, words, i, 0, r.blocks, r.words, r.ptr, U64 - 10)
  {
    hide Place, Guarded, Round16, WellFormed, FirstFit, Fits, Alloc, Served;
    var size := U64 - 10;
    GuardExact(size, 1, 0);
    TakenNothing();
    var i := FirstFit(bs, 0);
    InHeap(bs, start, end, i);
    GapPlaced(bs[i].Payload());
    var r := BoundrySpec(bs, words, size, 1, 0);
    TakenSize(bs, i, U64 - 1);
    if Served(bs, words, i, 0, r.blocks, r.words, r.ptr, size) {
      ServedSize(bs, words, i, 0, r.blocks, r.words, r.ptr, size);
    }
  }

  lemma TakenNothing()
    ensures Round16(U64 - 1) == 0 && Wrap64(U64 - 1) == U64 - 1
  {
  }

  lemma GapPlaced(raw: nat)
    requires HEADER <= raw < U64
    ensures Place(raw, U64 - 1, U64 - 10, 1, 0) == At(raw + WORD) || raw + WORD >= U64
  {
    AndNotZero(raw + WORD);
    WrapOnce(raw + WORD + U64 - 10);
    WrapOnce(raw + U64 - 1);
  }
}
