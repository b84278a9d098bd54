/** The heap as a list of blocks in address order: what `malloc` and `free` do to
    that list, and what the list keeps. The pointer structure is in module Heap. */
module BlockList {
  import opened Machine

  /** sizeof(heap::Block) */
  const HEADER: nat := 32
  /** A block is split only when the rest can hold a header and 16 bytes. */
  const MIN_SPLIT: nat := 16

  datatype Block = Block(addr: nat, size: nat, free: bool) {
    /** The address malloc returns for this block. */
    function Payload(): nat {
      addr + HEADER
    }

    function End(): nat {
      addr + HEADER + size
    }
  }

  // ----- the shape -----

  predicate Contiguous(bs: seq<Block>) {
    forall i :: 0 <= i < |bs| - 1 ==> bs[i].End() == bs[i + 1].addr
  }

  predicate Aligned(bs: seq<Block>) {
    forall i :: 0 <= i < |bs| ==> Multiple(bs[i].addr, 16)
  }

  predicate Coalesced(bs: seq<Block>) {
    forall i :: 0 <= i < |bs| - 1 ==> !(bs[i].free && bs[i + 1].free)
  }

  /** The blocks tile [start, end): no gap, no overlap. */
  predicate Tiles(bs: seq<Block>, start: nat, end: nat) {
    && |bs| > 0
    && bs[0].addr == start
    && bs[|bs| - 1].End() == end
    && Contiguous(bs)
    && Aligned(bs)
  }

  predicate WellFormed(bs: seq<Block>, start: nat, end: nat) {
    Tiles(bs, start, end) && Coalesced(bs)
  }

  // ----- the operations -----

  /** `(size + 15) & ~15` in 64-bit arithmetic: a size above 2^64 - 16 wraps to 0. */
  function Round16(size: nat): (r: nat)
    requires size < U64
    ensures Multiple(r, 16)
    ensures size <= U64 - 16 ==> size <= r < size + 16
    ensures size > U64 - 16 ==> r == 0
  {
    AlignDown(Wrap64(size + 15), 16)
  }

  predicate Fits(b: Block, need: nat) {
    b.free && b.size >= need
  }

  /** Index of the lowest block that can serve `need` bytes, |bs| when there is none. */
  function FirstFit(bs: seq<Block>, need: nat): (i: nat)
    ensures i <= |bs|
    ensures i < |bs| ==> Fits(bs[i], need)
    ensures forall j :: 0 <= j < i ==> !Fits(bs[j], need)
  {
    if bs == [] then 0
    else if Fits(bs[0], need) then 0
    else
      var t := FirstFit(bs[1..], need);
      assert forall j :: 1 <= j < |bs| ==> bs[j] == bs[1..][j - 1];
      t + 1
  }

  /** `n` blocks from index i on are replaced by `mid`. */
  function Splice(bs: seq<Block>, i: nat, n: nat, mid: seq<Block>): seq<Block>
    requires i + n <= |bs|
  {
    bs[..i] + mid + bs[i + n..]
  }

  /** A free block serves `need` bytes; the rest becomes a free block when it is big enough. */
  function Carve(b: Block, need: nat): (mid: seq<Block>)
    requires Fits(b, need)
    ensures 1 <= |mid| <= 2
  {
    if b.size >= need + HEADER + MIN_SPLIT then
      [Block(b.addr, need, false), Block(b.addr + HEADER + need, b.size - need - HEADER, true)]
    else
      [b.(free := false)]
  }

  function Alloc(bs: seq<Block>, i: nat, need: nat): (r: seq<Block>)
    requires i < |bs| && Fits(bs[i], need)
    ensures |r| >= |bs|
    ensures r[i] == Carve(bs[i], need)[0]
  {
    Splice(bs, i, 1, Carve(bs[i], need))
  }

  /** Block k + 1 is absorbed into block k. */
  function Merge(bs: seq<Block>, k: nat): seq<Block>
    requires k + 1 < |bs|
  {
    Splice(bs, k, 2, [bs[k].(size := bs[k].size + HEADER + bs[k + 1].size)])
  }

  function MergeRight(bs: seq<Block>, k: nat): (r: seq<Block>)
    requires k < |bs|
    ensures k < |r| <= |bs|
    decreases |bs|
  {
    if k + 1 < |bs| && bs[k + 1].free then MergeRight(Merge(bs, k), k) else bs
  }

  function MergeLeft(bs: seq<Block>, k: nat): seq<Block>
    requires k < |bs|
    decreases k
  {
    if k > 0 && bs[k - 1].free then MergeLeft(Merge(bs, k - 1), k - 1) else bs
  }

  /** Block k is given back and coalesced with every free neighbour. */
  function Release(bs: seq<Block>, k: nat): seq<Block>
    requires k < |bs|
  {
    MergeLeft(MergeRight(bs[k := bs[k].(free := true)], k), k)
  }

  lemma Apart(bs: seq<Block>, i: nat)
    requires Coalesced(bs) && i + 1 < |bs|
    ensures !(bs[i].free && bs[i + 1].free)
  {
  }

  // ----- order and disjointness -----

  lemma {:induction false} Ordered(bs: seq<Block>, i: nat, j: nat)
    requires Contiguous(bs) && i < j < |bs|
    ensures bs[i].End() <= bs[j].addr
    decreases j - i
  {
    if i + 1 < j {
      Ordered(bs, i + 1, j);
    }
  }

  /** Every block lies inside the heap. */
  lemma Within(bs: seq<Block>, start: nat, end: nat, i: nat)
    requires Tiles(bs, start, end) && i < |bs|
    ensures start <= bs[i].addr && bs[i].End() <= end
  {
    if i > 0 {
      Ordered(bs, 0, i);
    }
    if i < |bs| - 1 {
      Ordered(bs, i, |bs| - 1);
    }
  }

  /** Two different blocks share no byte, so no payload meets a payload or a header
      of another block. */
  lemma Disjoint(bs: seq<Block>, i: nat, j: nat)
    requires Contiguous(bs) && i < |bs| && j < |bs| && i != j
    ensures bs[i].End() <= bs[j].addr || bs[j].End() <= bs[i].addr
    ensures bs[i].addr != bs[j].addr
  {
    if i < j {
      Ordered(bs, i, j);
    } else {
      Ordered(bs, j, i);
    }
  }

  /** All sizes are multiples of 16 when the heap size is. */
  lemma SizesAligned(bs: seq<Block>, start: nat, end: nat, i: nat)
    requires Tiles(bs, start, end) && i < |bs|
    requires i < |bs| - 1 || (end - start) % 16 == 0
    ensures bs[i].size % 16 == 0
  {
    MultipleIsMod(bs[0].addr, 16);
    MultipleIsMod(bs[i].addr, 16);
    if i < |bs| - 1 {
      MultipleIsMod(bs[i + 1].addr, 16);
      assert bs[i].size == bs[i + 1].addr - bs[i].addr - HEADER;
    } else {
      assert bs[i].size == (end - start) - (bs[i].addr - start) - HEADER;
    }
  }

  function SizeSum(bs: seq<Block>): nat {
    if bs == [] then 0 else SizeSum(bs[..|bs| - 1]) + bs[|bs| - 1].size
  }

  /** Bytes are neither lost nor created: sizes plus headers fill the heap. */
  lemma {:induction false} Conservation(bs: seq<Block>, start: nat, end: nat)
    requires Tiles(bs, start, end)
    ensures SizeSum(bs) + HEADER * |bs| == end - start
  {
    var n := |bs| - 1;
    if n > 0 {
      var front := bs[..n];
      assert front[n - 1].End() == bs[n].addr;
      Conservation(front, start, bs[n].addr);
    } else {
      assert bs[..0] == [];
    }
  }

  // ----- every operation keeps the shape -----

  lemma SpliceTiles(bs: seq<Block>, i: nat, n: nat, mid: seq<Block>, start: nat, end: nat)
    requires Tiles(bs, start, end) && n > 0 && i + n <= |bs|
    requires |mid| > 0 && Contiguous(mid) && Aligned(mid)
    requires mid[0].addr == bs[i].addr && mid[|mid| - 1].End() == bs[i + n - 1].End()
    ensures Tiles(Splice(bs, i, n, mid), start, end)
  {
    var r := Splice(bs, i, n, mid);
    var m := |mid|;
    forall j | 0 <= j < |r|
      ensures Multiple(r[j].addr, 16)
      ensures j < |r| - 1 ==> r[j].End() == r[j + 1].addr
    {
      if j < i {
        assert r[j] == bs[j];
        assert bs[j].End() == bs[j + 1].addr;
        assert j + 1 < i ==> r[j + 1] == bs[j + 1];
      } else if j < i + m {
        assert r[j] == mid[j - i];
        if j + 1 < i + m {
          assert r[j + 1] == mid[j - i + 1];
        } else if j + 1 < |r| {
          assert r[j + 1] == bs[i + n];
          assert bs[i + n - 1].End() == bs[i + n - 1 + 1].addr;
        }
      } else {
        var k := j - m + n;
        assert r[j] == bs[k];
        assert j + 1 < |r| ==> r[j + 1] == bs[k + 1];
      }
    }
  }

  lemma SpliceCoalesced(bs: seq<Block>, i: nat, n: nat, mid: seq<Block>)
    requires Coalesced(bs) && n > 0 && i + n <= |bs|
    requires |mid| > 0 && Coalesced(mid)
    requires i > 0 ==> !(bs[i - 1].free && mid[0].free)
    requires i + n < |bs| ==> !(mid[|mid| - 1].free && bs[i + n].free)
    ensures Coalesced(Splice(bs, i, n, mid))
  {
    var r := Splice(bs, i, n, mid);
    var m := |mid|;
    forall j | 0 <= j < |r| - 1
      ensures !(r[j].free && r[j + 1].free)
    {
      if j < i {
        assert r[j] == bs[j];
        assert r[j + 1] == if j + 1 < i then bs[j + 1] else mid[0];
      } else if j < i + m {
        assert r[j] == mid[j - i];
        assert r[j + 1] == if j + 1 < i + m then mid[j - i + 1] else bs[i + n];
      } else {
        var k := j - m + n;
        assert r[j] == bs[k] && r[j + 1] == bs[k + 1];
      }
    }
  }

  lemma CarveTiles(b: Block, need: nat)
    requires Fits(b, need) && Multiple(b.addr, 16) && Multiple(need, 16)
    ensures var mid := Carve(b, need);
            Contiguous(mid) && Aligned(mid) && mid[0].addr == b.addr && mid[|mid| - 1].End() == b.End()
  {
    assert Multiple(HEADER, 16);
    MultiplesAdd(b.addr, HEADER, 16);
    MultiplesAdd(b.addr + HEADER, need, 16);
  }

  lemma AllocKeeps(bs: seq<Block>, i: nat, need: nat, start: nat, end: nat)
    requires WellFormed(bs, start, end)
    requires i < |bs| && Fits(bs[i], need) && Multiple(need, 16)
    ensures WellFormed(Alloc(bs, i, need), start, end)
  {
    CarveTiles(bs[i], need);
    SpliceTiles(bs, i, 1, Carve(bs[i], need), start, end);
    if i + 1 < |bs| {
      Apart(bs, i);
    }
    SpliceCoalesced(bs, i, 1, Carve(bs[i], need));
  }

  lemma MergeTiles(bs: seq<Block>, k: nat, start: nat, end: nat)
    requires Tiles(bs, start, end) && k + 1 < |bs|
    ensures Tiles(Merge(bs, k), start, end)
  {
    SpliceTiles(bs, k, 2, [bs[k].(size := bs[k].size + HEADER + bs[k + 1].size)], start, end);
  }

  // ----- a free in a coalesced list -----

  /** The first block of the run that a free turns into one block. */
  function RunStart(bs: seq<Block>, k: nat): (i: nat)
    requires k < |bs|
    ensures i <= k
  {
    if k > 0 && bs[k - 1].free then k - 1 else k
  }

  /** The index behind that run. */
  function RunEnd(bs: seq<Block>, k: nat): (e: nat)
    requires k < |bs|
    ensures k < e <= |bs|
  {
    if k + 1 < |bs| && bs[k + 1].free then k + 2 else k + 1
  }

  /** In a coalesced list a free replaces at most three blocks by one free block. */
  function ReleaseOnce(bs: seq<Block>, k: nat): seq<Block>
    requires k < |bs| && Contiguous(bs)
  {
    var i, e := RunStart(bs, k), RunEnd(bs, k);
    RunOrdered(bs, k);
    Splice(bs, i, e - i, [Block(bs[i].addr, bs[e - 1].End() - bs[i].addr - HEADER, true)])
  }

  lemma RunOrdered(bs: seq<Block>, k: nat)
    requires k < |bs| && Contiguous(bs)
    ensures bs[RunStart(bs, k)].addr + HEADER <= bs[RunEnd(bs, k) - 1].End()
    ensures bs[k].addr + HEADER <= bs[RunEnd(bs, k) - 1].End()
  {
    if k < RunEnd(bs, k) - 1 {
      Ordered(bs, k, RunEnd(bs, k) - 1);
    }
    if RunStart(bs, k) < RunEnd(bs, k) - 1 {
      Ordered(bs, RunStart(bs, k), RunEnd(bs, k) - 1);
    }
  }

  lemma RightOnce(bs: seq<Block>, k: nat)
    requires k + 1 < |bs| && bs[k + 1].free
    requires k + 2 < |bs| ==> !bs[k + 2].free
    ensures MergeRight(bs, k) == Merge(bs, k)
  {
    var m := Merge(bs, k);
    assert k + 1 < |m| ==> m[k + 1] == bs[k + 2];
    assert MergeRight(m, k) == m;
  }

  lemma LeftOnce(bs: seq<Block>, k: nat)
    requires 0 < k < |bs| && bs[k - 1].free
    requires k > 1 ==> !bs[k - 2].free
    ensures MergeLeft(bs, k) == Merge(bs, k - 1)
  {
    var m := Merge(bs, k - 1);
    assert k > 1 ==> m[k - 2] == bs[k - 2];
    assert MergeLeft(m, k - 1) == m;
  }

  /** What the first loop leaves of the list with block k already marked free. */
  lemma RightPart(bs: seq<Block>, k: nat)
    requires Coalesced(bs) && Contiguous(bs) && k < |bs|
    ensures var e := RunEnd(bs, k);
            MergeRight(bs[k := bs[k].(free := true)], k)
            == Splice(bs, k, e - k, [Block(bs[k].addr, bs[e - 1].End() - bs[k].addr - HEADER, true)])
  {
    var a := bs[k := bs[k].(free := true)];
    if k + 1 < |bs| && bs[k + 1].free {
      if k + 2 < |bs| {
        Apart(bs, k + 1);
      }
      assert a[k + 1] == bs[k + 1];
      RightOnce(a, k);
    }
  }

  lemma ReleaseIsOnce(bs: seq<Block>, k: nat)
    requires Coalesced(bs) && Contiguous(bs) && k < |bs|
    ensures Release(bs, k) == ReleaseOnce(bs, k)
  {
    hide MergeRight, MergeLeft, ReleaseOnce, Coalesced, Contiguous;
    RightPart(bs, k);
    RunOrdered(bs, k);
    LeftPart(bs, k, Block(bs[k].addr, bs[RunEnd(bs, k) - 1].End() - bs[k].addr - HEADER, true));
  }

  /** What the second loop makes of the list the first one leaves. */
  lemma LeftPart(bs: seq<Block>, k: nat, b: Block)
    requires Coalesced(bs) && Contiguous(bs) && k < |bs|
    requires b.free && b.addr == bs[k].addr && b.End() == bs[RunEnd(bs, k) - 1].End()
    ensures MergeLeft(Splice(bs, k, RunEnd(bs, k) - k, [b]), k) == ReleaseOnce(bs, k)
  {
    hide MergeLeft, Splice;
    var e := RunEnd(bs, k);
    var r := Splice(bs, k, e - k, [b]);
    SpliceFront(bs, k, e, b);
    RunOrdered(bs, k);
    if k > 0 && bs[k - 1].free {
      if k > 1 {
        Apart(bs, k - 2);
      }
      LeftOnce(r, k);
      MergeSplice(bs, k, e, b);
      assert bs[k - 1].End() == bs[k - 1 + 1].addr;
    } else {
      LeftNone(r, k);
    }
  }

  lemma SpliceFront(bs: seq<Block>, k: nat, e: nat, b: Block)
    requires k < e <= |bs|
    ensures var r := Splice(bs, k, e - k, [b]);
            && |r| == |bs| - (e - k) + 1 && r[k] == b
            && (k > 0 ==> r[k - 1] == bs[k - 1]) && (k > 1 ==> r[k - 2] == bs[k - 2])
  {
  }

  lemma LeftNone(r: seq<Block>, k: nat)
    requires k < |r| && (k > 0 ==> !r[k - 1].free)
    ensures MergeLeft(r, k) == r
  {
  }

  lemma MergeSplice(bs: seq<Block>, k: nat, e: nat, b: Block)
    requires 0 < k < e <= |bs|
    ensures Merge(Splice(bs, k, e - k, [b]), k - 1)
         == Splice(bs, k - 1, e - k + 1, [bs[k - 1].(size := bs[k - 1].size + HEADER + b.size)])
  {
    var r := Splice(bs, k, e - k, [b]);
    assert r[..k - 1] == bs[..k - 1];
    assert r[k + 1..] == bs[e..];
    assert r[k - 1] == bs[k - 1] && r[k] == b;
  }

  /** The run [i, e) that a free of block k turns into the free block b. */
  lemma ReleaseRun(bs: seq<Block>, k: nat) returns (i: nat, e: nat, b: Block)
    requires Coalesced(bs) && Contiguous(bs) && k < |bs|
    ensures i <= k < e <= |bs|
    ensures Release(bs, k) == Splice(bs, i, e - i, [b])
    ensures b.free && b.addr == bs[i].addr && b.End() == bs[e - 1].End()
    ensures forall j :: i <= j < e && j != k ==> bs[j].free
    ensures i > 0 ==> !bs[i - 1].free
    ensures e < |bs| ==> !bs[e].free
  {
    ReleaseIsOnce(bs, k);
    RunOrdered(bs, k);
    i, e := RunStart(bs, k), RunEnd(bs, k);
    b := Block(bs[i].addr, bs[e - 1].End() - bs[i].addr - HEADER, true);
    if k > 1 {
      Apart(bs, k - 2);
    }
    if k + 2 < |bs| {
      Apart(bs, k + 1);
    }
  }

  lemma ReleaseKeeps(bs: seq<Block>, k: nat, start: nat, end: nat)
    requires WellFormed(bs, start, end) && k < |bs|
    ensures WellFormed(Release(bs, k), start, end)
  {
    var i, e, b := ReleaseRun(bs, k);
    SpliceTiles(bs, i, e - i, [b], start, end);
    SpliceCoalesced(bs, i, e - i, [b]);
  }

  // ----- what the operations do to the allocated blocks -----

  /** The blocks handed out and not yet given back. */
  ghost function Used(bs: seq<Block>): set<Block> {
    set b | b in bs && !b.free
  }

  lemma UsedSplice(bs: seq<Block>, i: nat, n: nat, mid: seq<Block>)
    requires i + n <= |bs|
    ensures Used(Splice(bs, i, n, mid)) == Used(bs[..i]) + Used(mid) + Used(bs[i + n..])
  {
    var r := Splice(bs, i, n, mid);
    assert forall b :: b in r <==> b in bs[..i] || b in mid || b in bs[i + n..];
  }

  lemma UsedSplit(bs: seq<Block>, i: nat, n: nat)
    requires i + n <= |bs|
    ensures Used(bs) == Used(bs[..i]) + Used(bs[i..i + n]) + Used(bs[i + n..])
  {
    assert bs == Splice(bs, i, n, bs[i..i + n]);
    UsedSplice(bs, i, n, bs[i..i + n]);
  }

  lemma NotElsewhere(bs: seq<Block>, i: nat, b: Block)
    requires Contiguous(bs) && i < |bs| && b.addr == bs[i].addr
    ensures b !in bs[..i] && b !in bs[i + 1..]
  {
    forall j | 0 <= j < |bs| && j != i
      ensures bs[j] != b
    {
      Disjoint(bs, i, j);
    }
  }

  lemma UsedCarve(b: Block, need: nat)
    requires Fits(b, need)
    ensures Used([b]) == {} && Used(Carve(b, need)) == {Carve(b, need)[0]}
    ensures Carve(b, need)[0].addr == b.addr && !Carve(b, need)[0].free
  {
  }

  /** A block is split exactly when 48 bytes are left over: the front serves the request, the back
      is a free block with a header of its own. */
  lemma SplitExactly(bs: seq<Block>, i: nat, need: nat)
    requires i < |bs| && Fits(bs[i], need)
    ensures var (b, r) := (bs[i], Alloc(bs, i, need));
            if b.size >= need + 48 then
              r == bs[..i] + [Block(b.addr, need, false), Block(b.addr + 32 + need, b.size - need - 32, true)] + bs[i + 1..]
            else r == bs[i := Block(b.addr, b.size, false)]
  {
    if bs[i].size < need + 48 {
      assert bs[i := bs[i].(free := false)] == bs[..i] + [bs[i].(free := false)] + bs[i + 1..];
    }
  }

  lemma AllocUsed(bs: seq<Block>, i: nat, need: nat)
    requires Contiguous(bs)
    requires i < |bs| && Fits(bs[i], need)
    ensures Alloc(bs, i, need)[i].addr == bs[i].addr && !Alloc(bs, i, need)[i].free
    ensures Used(Alloc(bs, i, need)) == Used(bs) + {Alloc(bs, i, need)[i]}
    ensures Alloc(bs, i, need)[i] !in Used(bs)
  {
    hide Used, Contiguous, Splice;
    var mid := Carve(bs[i], need);
    UsedSplice(bs, i, 1, mid);
    UsedSplit(bs, i, 1);
    UsedCarve(bs[i], need);
    assert bs[i..i + 1] == [bs[i]];
    NotElsewhere(bs, i, mid[0]);
    NotUsed(bs[..i], mid[0]);
    NotUsed(bs[i + 1..], mid[0]);
  }

  lemma ReleaseUsed(bs: seq<Block>, k: nat)
    requires Contiguous(bs) && Coalesced(bs) && k < |bs|
    ensures Used(Release(bs, k)) == Used(bs) - {bs[k]}
  {
    hide Release, Used, Contiguous, Coalesced, Splice;
    var i, e, b := ReleaseRun(bs, k);
    UsedFree(b);
    UsedSplice(bs, i, e - i, [b]);
    UsedSplit(bs, i, e - i);
    UsedInRun(bs, i, e, k);
    NotElsewhere(bs, k, bs[k]);
    Narrower(bs, i, k);
    Later(bs, k + 1, e);
    NotUsed(bs[..i], bs[k]);
    NotUsed(bs[e..], bs[k]);
  }

  lemma UsedFree(b: Block)
    requires b.free
    ensures Used([b]) == {}
  {
  }

  lemma Narrower(bs: seq<Block>, i: nat, k: nat)
    requires i <= k <= |bs|
    ensures forall c :: c in bs[..i] ==> c in bs[..k]
  {
    assert bs[..i] == bs[..k][..i];
  }

  lemma Later(bs: seq<Block>, k: nat, e: nat)
    requires k <= e <= |bs|
    ensures forall c :: c in bs[e..] ==> c in bs[k..]
  {
    assert bs[e..] == bs[k..][e - k..];
  }

  lemma NotUsed(bs: seq<Block>, b: Block)
    requires b !in bs
    ensures b !in Used(bs)
  {
  }

  lemma UsedInRun(bs: seq<Block>, i: nat, e: nat, k: nat)
    requires i <= k < e <= |bs|
    requires forall j :: i <= j < e && j != k ==> bs[j].free
    ensures Used(bs[i..e]) - {bs[k]} == {}
  {
  }

  // ----- recovery -----

  /** Freeing a block just allocated restores exactly the list there was before. */
  lemma AllocReleaseRestores(bs: seq<Block>, i: nat, need: nat)
    requires Coalesced(bs) && Contiguous(bs)
    requires i < |bs| && Fits(bs[i], need)
    ensures Release(Alloc(bs, i, need), i) == bs
  {
    var r := Alloc(bs, i, need);
    assert r[..i] == bs[..i];
    if i > 0 {
      Apart(bs, i - 1);
      assert r[i - 1] == bs[i - 1];
    }
    if i + 1 < |bs| {
      Apart(bs, i);
    }
    var a := r[i := r[i].(free := true)];
    if |r| != |bs| {
      assert r[i + 2..] == bs[i + 1..];
      assert a[i + 1] == r[i + 1];
      assert i + 2 < |a| ==> a[i + 2] == bs[i + 1];
      RightOnce(a, i);
      assert Merge(a, i) == bs;
    } else {
      assert a == bs;
    }
  }

  /** A second free of the same block changes nothing. */
  lemma DoubleFreeIsIdle(bs: seq<Block>, k: nat)
    requires Coalesced(bs) && k < |bs| && bs[k].free
    ensures Release(bs, k) == bs
  {
    assert bs[k := bs[k].(free := true)] == bs;
    if k > 0 {
      Apart(bs, k - 1);
    }
    if k + 1 < |bs| {
      Apart(bs, k);
    }
  }

  /** With nothing allocated the heap is one free block again. */
  lemma AllFreeIsInitial(bs: seq<Block>, start: nat, end: nat)
    requires WellFormed(bs, start, end) && Used(bs) == {}
    ensures |bs| == 1 && bs[0].free && bs[0].addr == start && bs[0].End() == end
  {
    forall i | 0 <= i < |bs|
      ensures bs[i].free
    {
      assert bs[i] in bs;
      assert bs[i] !in Used(bs);
    }
    if |bs| > 1 {
      Apart(bs, 0);
    }
  }
}
