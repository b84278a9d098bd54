/** The block allocator: headers linked by addresses in one memory, changed in place.
    The methods refine the list operations of module BlockList. */
module Heap {
  import opened Machine
  import opened BlockList

  const NULL: nat := 0

  /** The fields of heap::Block as they lie in memory. */
  datatype Header = Header(size: nat, free: bool, next: nat, prev: nat)

  type Memory = map<nat, Header>

  // ----- the link structure on values -----

  ghost predicate Linked(mem: Memory, spine: seq<nat>) {
    && InMemory(mem, spine)
    && (forall i :: 0 <= i < |spine| ==> LinkedAt(mem, spine, i))
  }

  ghost predicate InMemory(mem: Memory, spine: seq<nat>) {
    forall i :: 0 <= i < |spine| ==> spine[i] in mem && spine[i] != NULL
  }

  ghost predicate LinkedAt(mem: Memory, spine: seq<nat>, i: nat)
    requires InMemory(mem, spine) && i < |spine|
  {
    && mem[spine[i]].next == (if i + 1 < |spine| then spine[i + 1] else NULL)
    && mem[spine[i]].prev == (if i > 0 then spine[i - 1] else NULL)
  }

  ghost function View(mem: Memory, spine: seq<nat>): (bs: seq<Block>)
    requires InMemory(mem, spine)
    ensures |bs| == |spine|
    ensures forall i :: 0 <= i < |bs| ==> bs[i] == Block(spine[i], mem[spine[i]].size, mem[spine[i]].free)
  {
    seq(|spine|, i requires 0 <= i < |spine| => Block(spine[i], mem[spine[i]].size, mem[spine[i]].free))
  }

  lemma SpineDistinct(mem: Memory, spine: seq<nat>)
    requires Linked(mem, spine) && Contiguous(View(mem, spine))
    ensures forall i, j :: 0 <= i < j < |spine| ==> spine[i] < spine[j]
  {
    var bs := View(mem, spine);
    forall i, j | 0 <= i < j < |spine|
      ensures spine[i] < spine[j]
    {
      Ordered(bs, i, j);
    }
  }

  /** Changing the free flag of one header keeps the links. */
  lemma FlagRefines(mem: Memory, spine: seq<nat>, i: nat, free: bool)
    requires Linked(mem, spine) && Contiguous(View(mem, spine)) && i < |spine|
    ensures var mem' := mem[spine[i] := mem[spine[i]].(free := free)];
            && Linked(mem', spine)
            && View(mem', spine) == View(mem, spine)[i := View(mem, spine)[i].(free := free)]
  {
    SpineDistinct(mem, spine);
    var mem' := mem[spine[i] := mem[spine[i]].(free := free)];
    forall j | 0 <= j < |spine|
      ensures LinkedAt(mem', spine, j)
    {
      assert LinkedAt(mem, spine, j);
    }
  }

  /** Memory after the split branch, its stores made one after the other. */
  function SplitMemory(mem: Memory, block: nat, need: nat): Memory
    requires block in mem && mem[block].size >= need + HEADER
    requires mem[block].next == NULL || mem[block].next in mem
  {
    var newBlock := block + HEADER + need;
    var m1 := mem[newBlock := Header(mem[block].size - need - HEADER, true, mem[block].next, block)];
    var next := mem[block].next;
    var m2 := if next != NULL then m1[next := m1[next].(prev := newBlock)] else m1;
    var m3 := m2[block := m2[block].(size := need, next := newBlock)];
    m3[block := m3[block].(free := false)]
  }

  lemma SplitLinks(mem: Memory, spine: seq<nat>, i: nat, need: nat)
    requires Linked(mem, spine) && i < |spine|
    requires forall i, j :: 0 <= i < j < |spine| ==> spine[i] < spine[j]
    requires mem[spine[i]].size >= need + HEADER && spine[i] + HEADER + need !in spine
    ensures mem[spine[i]].next == NULL || mem[spine[i]].next in mem
    ensures Linked(SplitMemory(mem, spine[i], need), spine[..i + 1] + [spine[i] + HEADER + need] + spine[i + 1..])
  {
    var newBlock := spine[i] + HEADER + need;
    assert LinkedAt(mem, spine, i);
    var mem' := SplitMemory(mem, spine[i], need);
    var spine' := spine[..i + 1] + [newBlock] + spine[i + 1..];
    assert InMemory(mem', spine');
    forall j | 0 <= j < |spine'|
      ensures LinkedAt(mem', spine', j)
    {
      if j <= i {
        assert LinkedAt(mem, spine, j);
      } else if j > i + 1 {
        assert spine'[j] == spine[j - 1];
        assert LinkedAt(mem, spine, j - 1);
      }
    }
  }

  /** The new header lies inside the payload it is carved from, so on no other header. */
  lemma SplitFresh(mem: Memory, spine: seq<nat>, i: nat, need: nat)
    requires InMemory(mem, spine) && Contiguous(View(mem, spine)) && i < |spine|
    requires mem[spine[i]].size >= need + HEADER
    ensures spine[i] + HEADER + need !in spine
  {
    var bs := View(mem, spine);
    forall j | 0 <= j < |spine|
      ensures spine[j] != spine[i] + HEADER + need
    {
      if j != i {
        Disjoint(bs, i, j);
      }
    }
  }

  lemma SplitFields(mem: Memory, block: nat, need: nat)
    requires block in mem && mem[block].size >= need + HEADER
    requires mem[block].next == NULL || mem[block].next in mem
    requires mem[block].next != block && mem[block].next != block + HEADER + need
    ensures var mem' := SplitMemory(mem, block, need);
            var newBlock := block + HEADER + need;
            && block in mem' && mem'[block].size == need && !mem'[block].free
            && newBlock in mem' && mem'[newBlock].size == mem[block].size - need - HEADER && mem'[newBlock].free
            && (forall a :: a in mem && a != block && a != newBlock ==>
                  a in mem' && mem'[a].size == mem[a].size && mem'[a].free == mem[a].free)
  {
  }

  lemma SplitView(mem: Memory, mem': Memory, spine: seq<nat>, i: nat, need: nat)
    requires InMemory(mem, spine) && i < |spine|
    requires forall j :: 0 <= j < |spine| && j != i ==> spine[j] != spine[i]
    requires Fits(View(mem, spine)[i], need) && mem[spine[i]].size >= need + HEADER + MIN_SPLIT
    requires spine[i] + HEADER + need !in spine
    requires var block := spine[i];
             var newBlock := block + HEADER + need;
             && block in mem' && mem'[block].size == need && !mem'[block].free
             && newBlock in mem' && mem'[newBlock].size == mem[block].size - need - HEADER && mem'[newBlock].free
             && (forall a :: a in mem && a != block && a != newBlock ==>
                   a in mem' && mem'[a].size == mem[a].size && mem'[a].free == mem[a].free)
    ensures var spine' := spine[..i + 1] + [spine[i] + HEADER + need] + spine[i + 1..];
            InMemory(mem', spine') && View(mem', spine') == Alloc(View(mem, spine), i, need)
  {
    var newBlock := spine[i] + HEADER + need;
    ViewReplace(mem, mem', spine, i, 1, [spine[i], newBlock]);
    assert spine[..i + 1] + [newBlock] + spine[i + 1..] == spine[..i] + [spine[i], newBlock] + spine[i + 1..];
    assert View(mem', [spine[i], newBlock]) == Carve(View(mem, spine)[i], need);
  }

  lemma ViewSame(mem: Memory, mem': Memory, spine: seq<nat>)
    requires InMemory(mem, spine)
    requires forall i :: 0 <= i < |spine| ==>
      spine[i] in mem' && mem'[spine[i]].size == mem[spine[i]].size && mem'[spine[i]].free == mem[spine[i]].free
    ensures InMemory(mem', spine) && View(mem', spine) == View(mem, spine)
  {
  }

  lemma ViewSplice(mem: Memory, left: seq<nat>, mid: seq<nat>, right: seq<nat>)
    requires InMemory(mem, left) && InMemory(mem, mid) && InMemory(mem, right)
    ensures InMemory(mem, left + mid + right)
    ensures View(mem, left + mid + right) == View(mem, left) + View(mem, mid) + View(mem, right)
  {
  }

  lemma ViewSlice(mem: Memory, spine: seq<nat>, i: nat, e: nat)
    requires InMemory(mem, spine) && i <= e <= |spine|
    ensures InMemory(mem, spine[i..e]) && View(mem, spine[i..e]) == View(mem, spine)[i..e]
  {
  }

  /** Replacing part of the spine splices the view, when the rest of memory is as before. */
  lemma ViewReplace(mem: Memory, mem': Memory, spine: seq<nat>, i: nat, n: nat, mid: seq<nat>)
    requires InMemory(mem, spine) && i + n <= |spine| && InMemory(mem', mid)
    requires forall j :: (0 <= j < i || i + n <= j < |spine|) ==>
      spine[j] in mem' && mem'[spine[j]].size == mem[spine[j]].size && mem'[spine[j]].free == mem[spine[j]].free
    ensures InMemory(mem', spine[..i] + mid + spine[i + n..])
    ensures View(mem', spine[..i] + mid + spine[i + n..]) == Splice(View(mem, spine), i, n, View(mem', mid))
  {
    ViewSlice(mem, spine, 0, i);
    ViewSlice(mem, spine, i + n, |spine|);
    ViewSame(mem, mem', spine[..i]);
    ViewSame(mem, mem', spine[i + n..]);
    ViewSplice(mem', spine[..i], mid, spine[i + n..]);
  }

  lemma SplitRefines(mem: Memory, spine: seq<nat>, i: nat, need: nat)
    requires Linked(mem, spine) && Contiguous(View(mem, spine)) && i < |spine|
    requires Fits(View(mem, spine)[i], need) && mem[spine[i]].size >= need + HEADER + MIN_SPLIT
    ensures mem[spine[i]].next == NULL || mem[spine[i]].next in mem
    ensures var mem' := SplitMemory(mem, spine[i], need);
            var spine' := spine[..i + 1] + [spine[i] + HEADER + need] + spine[i + 1..];
            Linked(mem', spine') && View(mem', spine') == Alloc(View(mem, spine), i, need)
  {
    SpineDistinct(mem, spine);
    SplitFresh(mem, spine, i, need);
    SplitLinks(mem, spine, i, need);
    assert LinkedAt(mem, spine, i);
    SplitFields(mem, spine[i], need);
    SplitView(mem, SplitMemory(mem, spine[i], need), spine, i, need);
  }

  /** Memory after a block has absorbed its right neighbour. */
  function AbsorbMemory(mem: Memory, block: nat): Memory
    requires block in mem && mem[block].next in mem && mem[block].next != block
    requires mem[mem[block].next].next == NULL || mem[mem[block].next].next in mem
  {
    var next := mem[block].next;
    var m1 := mem[block := mem[block].(size := mem[block].size + mem[next].size + HEADER)];
    var m2 := m1[block := m1[block].(next := m1[next].next)];
    var after := m1[next].next;
    if after != NULL then m2[after := m2[after].(prev := block)] else m2
  }

  lemma AbsorbFields(mem: Memory, block: nat)
    requires block in mem && mem[block].next in mem && mem[block].next != block
    requires mem[mem[block].next].next == NULL || mem[mem[block].next].next in mem
    requires mem[mem[block].next].next != block
    ensures var mem' := AbsorbMemory(mem, block);
            var next := mem[block].next;
            && mem'.Keys == mem.Keys
            && mem'[block] == mem[block].(size := mem[block].size + mem[next].size + HEADER, next := mem[next].next)
            && (forall a :: a in mem && a != block ==>
                  mem'[a] == if a == mem[next].next && a != NULL then mem[a].(prev := block) else mem[a])
  {
  }

  lemma AbsorbLinks(mem: Memory, mem': Memory, spine: seq<nat>, k: nat)
    requires Linked(mem, spine) && k + 1 < |spine|
    requires forall i, j :: 0 <= i < j < |spine| ==> spine[i] < spine[j]
    requires mem'.Keys == mem.Keys
    requires mem'[spine[k]].next == mem[spine[k + 1]].next && mem'[spine[k]].prev == mem[spine[k]].prev
    requires forall a :: a in mem && a != spine[k] ==>
      mem'[a] == if a == mem[spine[k + 1]].next && a != NULL then mem[a].(prev := spine[k]) else mem[a]
    ensures Linked(mem', spine[..k + 1] + spine[k + 2..])
  {
    assert LinkedAt(mem, spine, k + 1);
    var spine' := spine[..k + 1] + spine[k + 2..];
    forall j | 0 <= j < |spine'|
      ensures LinkedAt(mem', spine', j)
    {
      if j <= k {
        assert LinkedAt(mem, spine, j);
      } else {
        assert spine'[j] == spine[j + 1];
        assert LinkedAt(mem, spine, j + 1);
      }
    }
  }

  lemma AbsorbView(mem: Memory, mem': Memory, spine: seq<nat>, k: nat)
    requires InMemory(mem, spine) && k + 1 < |spine|
    requires forall j :: 0 <= j < |spine| && j != k ==> spine[j] != spine[k]
    requires mem'.Keys == mem.Keys
    requires mem'[spine[k]].size == mem[spine[k]].size + mem[spine[k + 1]].size + HEADER
    requires mem'[spine[k]].free == mem[spine[k]].free
    requires forall a :: a in mem && a != spine[k] ==> mem'[a].size == mem[a].size && mem'[a].free == mem[a].free
    ensures var spine' := spine[..k + 1] + spine[k + 2..];
            InMemory(mem', spine') && View(mem', spine') == Merge(View(mem, spine), k)
  {
    hide View, Splice;
    ViewReplace(mem, mem', spine, k, 2, [spine[k]]);
    assert spine[..k + 1] + spine[k + 2..] == spine[..k] + [spine[k]] + spine[k + 2..];
    assert View(mem', [spine[k]]) == [View(mem, spine)[k].(size := mem'[spine[k]].size)];
  }

  lemma AbsorbRefines(mem: Memory, spine: seq<nat>, k: nat)
    requires Linked(mem, spine) && Contiguous(View(mem, spine)) && k + 1 < |spine|
    ensures mem[spine[k]].next == spine[k + 1] && spine[k + 1] != spine[k]
    ensures mem[spine[k + 1]].next == NULL || mem[spine[k + 1]].next in mem
    ensures var mem' := AbsorbMemory(mem, spine[k]);
            var spine' := spine[..k + 1] + spine[k + 2..];
            Linked(mem', spine') && View(mem', spine') == Merge(View(mem, spine), k)
  {
    SpineDistinct(mem, spine);
    assert LinkedAt(mem, spine, k) && LinkedAt(mem, spine, k + 1);
    AbsorbFields(mem, spine[k]);
    AbsorbLinks(mem, AbsorbMemory(mem, spine[k]), spine, k);
    AbsorbView(mem, AbsorbMemory(mem, spine[k]), spine, k);
  }

  class Heap {
    var mem: Memory
    var head: nat
    var start: nat
    var end: nat
    /** Words that malloc_align and malloc_boundry store in front of what they return. */
    var words: map<nat, nat>
    ghost var spine: seq<nat>

    /** Links and tiling, without coalescing: what holds between the steps of `Free`. */
    ghost predicate Shape()
      reads this`mem, this`spine, this`head, this`start, this`end
    {
      && Linked(mem, spine)
      && Tiles(View(mem, spine), start, end)
      && head == spine[0]
      && 16 <= start
      && end < U64
    }

    ghost predicate Valid()
      reads this`mem, this`spine, this`head, this`start, this`end
    {
      Shape() && Coalesced(View(mem, spine))
    }

    ghost function Blocks(): seq<Block>
      requires Shape()
      reads this`mem, this`spine, this`head, this`start, this`end
    {
      View(mem, spine)
    }

    /** heap_init */
    constructor (size: nat, heapAddr: nat)
      requires 16 <= heapAddr && heapAddr % 16 == 0
      requires HEADER <= size && heapAddr + size < U64
      ensures Valid() && start == heapAddr && end == heapAddr + size
      ensures Blocks() == [Block(heapAddr, size - HEADER, true)]
    {
      MultipleIsMod(heapAddr, 16);
      head := heapAddr;
      mem := map[heapAddr := Header(size - HEADER, true, NULL, NULL)];
      start := heapAddr;
      end := heapAddr + size;
      words := map[];
      spine := [heapAddr];
    }

    method Malloc(size: nat) returns (ptr: nat)
      requires Valid() && size < U64
      modifies this`mem, this`spine
      ensures Valid()
      ensures var i := FirstFit(old(Blocks()), Round16(size));
              if i == |old(Blocks())| then
                ptr == NULL && Blocks() == old(Blocks())
              else
                && ptr == old(Blocks())[i].Payload()
                && Blocks() == Alloc(old(Blocks()), i, Round16(size))
    {
      ghost var bs := Blocks();
      var need := Round16(size);
      var block := head;
      ghost var i := 0;
      while block != NULL
        invariant mem == old(mem) && spine == old(spine)
        invariant 0 <= i <= |spine|
        invariant block == if i < |spine| then spine[i] else NULL
        invariant forall j :: 0 <= j < i ==> !Fits(bs[j], need)
        decreases |spine| - i
      {
        assert LinkedAt(mem, spine, i);
        if mem[block].free && mem[block].size >= need {
          FirstFitIs(bs, need, i);
          Take(block, need, i);
          return block + HEADER;
        }
        block := mem[block].next;
        i := i + 1;
      }
      FirstFitIs(bs, need, i);
      ptr := NULL;
    }

    /** The block found is split or taken whole. */
    method Take(block: nat, need: nat, ghost i: nat)
      requires Valid() && i < |spine| && spine[i] == block
      requires Fits(Blocks()[i], need) && Multiple(need, 16)
      modifies this`mem, this`spine
      ensures Valid() && Blocks() == Alloc(old(Blocks()), i, need)
    {
      ghost var bs := Blocks();
      AllocKeeps(bs, i, need, start, end);
      Within(bs, start, end, i);
      assert need + HEADER + MIN_SPLIT < U64;
      if mem[block].size >= Wrap64(need + HEADER + MIN_SPLIT) {
        Split(block, need, i);
      } else {
        FlagRefines(mem, spine, i, false);
        mem := mem[block := mem[block].(free := false)];
      }
    }

    /** The body of the split branch: a free block is carved off behind `need` bytes. */
    method Split(block: nat, need: nat, ghost i: nat)
      requires Valid() && i < |spine| && spine[i] == block
      requires Fits(Blocks()[i], need) && Blocks()[i].size >= need + HEADER + MIN_SPLIT
      modifies this`mem, this`spine
      ensures Linked(mem, spine) && View(mem, spine) == Alloc(old(Blocks()), i, need)
      ensures spine[0] == old(spine[0])
    {
      assert LinkedAt(mem, spine, i);
      SplitRefines(mem, spine, i, need);
      SplitStores(block, need);
      spine := spine[..i + 1] + [block + HEADER + need] + spine[i + 1..];
    }

    /** The stores of the split branch. */
    method SplitStores(block: nat, need: nat)
      requires block in mem && mem[block].size >= need + HEADER
      requires mem[block].next == NULL || mem[block].next in mem
      modifies this`mem
      ensures mem == SplitMemory(old(mem), block, need)
    {
      var newSize := mem[block].size - need - HEADER;
      var newBlock := block + HEADER + need;
      mem := mem[newBlock := Header(newSize, true, mem[block].next, block)];
      if mem[newBlock].next != NULL {
        var next := mem[newBlock].next;
        mem := mem[next := mem[next].(prev := newBlock)];
      }
      mem := mem[block := mem[block].(size := need, next := newBlock)];
      mem := mem[block := mem[block].(free := false)];
    }

    /** The three assignments by which a block absorbs its right neighbour. */
    method Absorb(block: nat, ghost k: nat)
      requires Shape() && k + 1 < |spine| && spine[k] == block
      modifies this`mem, this`spine
      ensures Shape() && Blocks() == Merge(old(Blocks()), k)
      ensures spine == old(spine[..k + 1] + spine[k + 2..])
    {
      AbsorbRefines(mem, spine, k);
      MergeTiles(Blocks(), k, start, end);
      AbsorbStores(block);
      spine := spine[..k + 1] + spine[k + 2..];
    }

    method AbsorbStores(block: nat)
      requires block in mem && mem[block].next in mem && mem[block].next != block
      requires mem[mem[block].next].next == NULL || mem[mem[block].next].next in mem
      modifies this`mem
      ensures mem == AbsorbMemory(old(mem), block)
    {
      var next := mem[block].next;
      mem := mem[block := mem[block].(size := mem[block].size + mem[next].size + HEADER)];
      mem := mem[block := mem[block].(next := mem[next].next)];
      if mem[block].next != NULL {
        var after := mem[block].next;
        mem := mem[after := mem[after].(prev := block)];
      }
    }

    /** `free`: the pointer is null or names a block of the list, allocated or not. */
    method Free(ptr: nat, ghost k: nat)
      requires Valid()
      requires ptr == NULL || (k < |Blocks()| && Blocks()[k].Payload() == ptr)
      modifies this`mem, this`spine
      ensures Valid()
      ensures Blocks() == if ptr == NULL then old(Blocks()) else Release(old(Blocks()), k)
    {
      if ptr == NULL {
        return;
      }
      ghost var bs := Blocks();
      ReleaseKeeps(bs, k, start, end);
      var block := ptr - HEADER;
      FlagRefines(mem, spine, k, true);
      mem := mem[block := mem[block].(free := true)];
      ghost var a := bs[k := bs[k].(free := true)];

      CoalesceRight(block, k);
      CoalesceLeft(block, k);
    }

    /** The first loop of `free`. */
    method CoalesceRight(block: nat, ghost k: nat)
      requires Shape() && k < |spine| && spine[k] == block
      modifies this`mem, this`spine
      ensures Shape() && k < |spine| && spine[k] == block
      ensures Blocks() == MergeRight(old(Blocks()), k)
    {
      ghost var bs := Blocks();
      assert LinkedAt(mem, spine, k);
      while mem[block].next != NULL && mem[mem[block].next].free
        invariant Shape() && k < |spine| && spine[k] == block
        invariant LinkedAt(mem, spine, k)
        invariant MergeRight(Blocks(), k) == MergeRight(bs, k)
        decreases |spine|
      {
        Absorb(block, k);
        assert LinkedAt(mem, spine, k);
      }
    }

    /** The second loop of `free`. */
    method CoalesceLeft(last: nat, ghost k: nat)
      requires Shape() && k < |spine| && spine[k] == last
      modifies this`mem, this`spine
      ensures Shape() && Blocks() == MergeLeft(old(Blocks()), k)
    {
      ghost var bs := Blocks();
      var block := last;
      ghost var m: nat := k;
      assert LinkedAt(mem, spine, m);
      while mem[block].prev != NULL && mem[mem[block].prev].free
        invariant Shape() && m < |spine| && spine[m] == block
        invariant LinkedAt(mem, spine, m)
        invariant MergeLeft(Blocks(), m) == MergeLeft(bs, k)
        decreases m
      {
        var prev := mem[block].prev;
        Absorb(prev, m - 1);
        block := prev;
        m := m - 1;
        assert LinkedAt(mem, spine, m);
      }
    }

    /** check_heap, check_free_heap and check_used_heap are this loop with three guards. */
    method CheckHeap() returns (all: nat, free: nat, used: nat)
      requires Valid()
      ensures all == end - start - HEADER * |Blocks()|
      ensures free == SizeSum(FreeOnly(Blocks())) && used == all - free
    {
      ghost var bs := Blocks();
      all, free, used := 0, 0, 0;
      var block := head;
      ghost var i := 0;
      while block != NULL
        invariant 0 <= i <= |spine|
        invariant block == if i < |spine| then spine[i] else NULL
        invariant all == SizeSum(bs[..i]) && free == SizeSum(FreeOnly(bs[..i])) && all == free + used
        decreases |spine| - i
      {
        assert LinkedAt(mem, spine, i);
        assert bs[..i + 1][..i] == bs[..i];
        assert bs[..i + 1] == bs[..i] + [bs[i]];
        FreeOnlySum(bs[..i], bs[i]);
        all := all + mem[block].size;
        if mem[block].free {
          free := free + mem[block].size;
        } else {
          used := used + mem[block].size;
        }
        block := mem[block].next;
        i := i + 1;
      }
      assert bs[..i] == bs;
      Conservation(bs, start, end);
    }
  }

  function FreeOnly(bs: seq<Block>): seq<Block> {
    if bs == [] then []
    else FreeOnly(bs[..|bs| - 1]) + (if bs[|bs| - 1].free then [bs[|bs| - 1]] else [])
  }

  lemma FreeOnlySum(bs: seq<Block>, b: Block)
    ensures SizeSum(FreeOnly(bs + [b])) == SizeSum(FreeOnly(bs)) + if b.free then b.size else 0
  {
    assert (bs + [b])[..|bs|] == bs;
    var f := FreeOnly(bs);
    assert (f + [b])[..|f|] == f;
    assert f + [] == f;
  }

  lemma FirstFitIs(bs: seq<Block>, need: nat, i: nat)
    requires i <= |bs| && (i < |bs| ==> Fits(bs[i], need))
    requires forall j :: 0 <= j < i ==> !Fits(bs[j], need)
    ensures FirstFit(bs, need) == i
  {
  }
}
