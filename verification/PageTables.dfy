/** Map_memory and Map_memory_vp over the heap: every table is a page of its own raw block. */
module PageTables {
  import opened Machine
  import opened BlockList
  import opened AlignedHeap
  import opened Paging
  import H = Heap

  /** Page t lies, with the word that leads to its raw block, inside the allocated block b. */
  ghost predicate PageOk(bs: seq<Block>, words: map<nat, nat>, hhdm: nat, t: nat, b: Block) {
    && Owns(bs, words, t + hhdm, b)
    && t + hhdm + PAGE <= b.End()
    && IsFrame(t)
  }

  /** Every table but the root has a block of its own. */
  ghost predicate Pages(bs: seq<Block>, words: map<nat, nat>, hhdm: nat, tables: set<nat>, owner: map<nat, Block>) {
    && (forall t :: t in tables ==> t in owner && PageOk(bs, words, hhdm, t, owner[t]))
    && (forall t, u :: t in tables && u in tables && t != u ==> owner[t] != owner[u])
  }

  /** The page cut from a new block is no table yet, and all earlier ones stay. */
  lemma NewPage(bs: seq<Block>, words: map<nat, nat>, i: nat, need: nat, bs': seq<Block>, words': map<nat, nat>,
                ptr: nat, hhdm: nat, tables: set<nat>, owner: map<nat, Block>, start: nat, end: nat)
    requires WellFormed(bs, start, end) && Multiple(need, 16)
    requires Served(bs, words, i, need, bs', words', ptr, PAGE) && Multiple(ptr, PAGE)
    requires Pages(bs, words, hhdm, tables, owner)
    requires hhdm % PAGE == 0 && hhdm <= start && end - hhdm <= P52
    ensures start - hhdm < ptr - hhdm && ptr - hhdm + PAGE <= end - hhdm && IsFrame(ptr - hhdm)
    ensures ptr - hhdm !in tables
    ensures Pages(bs', words', hhdm, tables + {ptr - hhdm}, owner[ptr - hhdm := bs'[i]])
  {
    hide Alloc, Carve, Fits, Multiple;
    ServedOwns(bs, words, i, need, bs', words', ptr, PAGE, start, end);
    AllocKeeps(bs, i, need, start, end);
    Within(bs', start, end, i);
    MultipleIsMod(ptr, PAGE);
    var page := ptr - hhdm;
    forall t | t in tables
      ensures t != page && PageOk(bs', words', hhdm, t, owner[t]) && owner[t] != bs'[i]
    {
      assert PageOk(bs, words, hhdm, t, owner[t]);
      var j :| 0 <= j < |bs'| && bs'[j] == owner[t];
      Disjoint(bs', i, j);
    }
    assert PageOk(bs', words', hhdm, page, bs'[i]);
  }

  /** After mapping page v to frame p, every other page translates as before. */
  ghost predicate PageMapped(after: Tables, before: Tables, root: nat, v: nat, p: nat, flags: nat) {
    forall q :: IsPath(q) ==>
      Translate(after, root, q) == if q == PathOf(v) then Mapped(p, flags) else Translate(before, root, q)
  }

  /** The first n bytes from virt on lead to the bytes from physical on, with these flags as
      effective rights; every other of the 2^36 pages translates as before. */
  ghost predicate RangeMapped(after: Tables, before: Tables, root: nat, virt: nat, physical: nat, flags: nat, n: nat) {
    forall q :: IsPath(q) ==>
      Translate(after, root, q) ==
      if Offset(virt, q) < n then Mapped(physical + Offset(virt, q), flags) else Translate(before, root, q)
  }

  lemma RangeStarts(mem: Tables, root: nat, virt: nat, physical: nat, flags: nat)
    ensures RangeMapped(mem, mem, root, virt, physical, flags, 0)
  {
    hide Translate, Mapped, Offset;
  }

  /** A refused page leaves the range as it was. */
  lemma RangeSame(after: Tables, mem: Tables, before: Tables, root: nat, virt: nat, physical: nat, flags: nat, n: nat)
    requires RangeMapped(mem, before, root, virt, physical, flags, n) && SameMapped(after, mem, root)
    ensures RangeMapped(after, before, root, virt, physical, flags, n)
  {
    hide Translate, Mapped, Offset;
  }

  ghost predicate SameMapped(after: Tables, before: Tables, root: nat) {
    forall q :: IsPath(q) ==> Translate(after, root, q) == Translate(before, root, q)
  }

  lemma SameTwice(after: Tables, mem: Tables, before: Tables, root: nat)
    requires SameMapped(after, mem, root) && SameMapped(mem, before, root)
    ensures SameMapped(after, before, root)
  {
    hide Translate;
  }

  lemma SetLeafMaps(mem: Tables, before: Tables, layout: Layout, root: nat, t: nat, v: nat, p: nat, flags: nat)
    requires Tree(mem, layout, root) && SameMapped(mem, before, root) && IsFrame(p) && IsFlags(flags)
    requires LeafTable(mem, root, PathOf(v)) == Some(t) && t in mem && |mem[t]| == ENTRIES
    ensures PageMapped(SetLeaf(mem, t, PathOf(v).i1, Entry(p, flags)), before, root, v, p, flags)
  {
    hide Tree, Translate, PathOf, Mapped, Entry, LeafTable, SetLeaf;
    forall q | IsPath(q)
      ensures Translate(SetLeaf(mem, t, PathOf(v).i1, Entry(p, flags)), root, q) ==
              if q == PathOf(v) then Mapped(p, flags) else Translate(before, root, q)
    {
      SetLeafTranslate(mem, layout, root, PathOf(v), p, flags, q);
    }
  }

  lemma RangeStep(after: Tables, mem: Tables, before: Tables, root: nat, virt: nat, physical: nat, flags: nat, n: nat)
    requires virt < U64 && virt % PAGE == 0 && n % PAGE == 0 && n < P48
    requires RangeMapped(mem, before, root, virt, physical, flags, n)
    requires PageMapped(after, mem, root, Wrap64(virt + n), physical + n, flags)
    ensures RangeMapped(after, before, root, virt, physical, flags, n + PAGE)
  {
    hide Translate, Mapped, Offset, PathOf;
    forall q | IsPath(q)
      ensures Translate(after, root, q) ==
        if Offset(virt, q) < n + PAGE then Mapped(physical + Offset(virt, q), flags) else Translate(before, root, q)
    {
      OffsetIs(virt, n, q);
      PagesApart(Offset(virt, q), n);
    }
  }

  class PageTables {
    const heap: H.Heap
    /** Physical address of the PML4, a static array outside the heap. */
    const root: nat
    /** Offset of the direct map: virtual minus physical address. */
    const hhdm: nat
    var tables: Tables
    ghost var layout: Layout
    ghost var owner: map<nat, Block>

    ghost predicate Grounded()
      reads this, heap
    {
      && heap.Valid()
      && hhdm % PAGE == 0 && hhdm <= heap.start && heap.end - hhdm <= P52
      && (root + PAGE <= heap.start - hhdm || heap.end - hhdm <= root)
      && root in tables
      && Pages(heap.Blocks(), heap.words, hhdm, tables.Keys - {root}, owner)
    }

    ghost predicate Valid()
      reads this, heap
    {
      Grounded() && Tree(tables, layout, root)
    }

    /** Paging::Init clears the PML4. */
    constructor (heap: H.Heap, root: nat, hhdm: nat)
      requires heap.Valid()
      requires hhdm % PAGE == 0 && hhdm <= heap.start && heap.end - hhdm <= P52
      requires root + PAGE <= heap.start - hhdm || heap.end - hhdm <= root
      ensures Valid() && this.heap == heap && this.root == root && this.hhdm == hhdm
      ensures forall q :: IsPath(q) ==> Translate(tables, root, q) == None
    {
      this.heap := heap;
      this.root := root;
      this.hhdm := hhdm;
      tables := map[root := EmptyTable()];
      layout := map[root := Node(4, root, 0)];
      owner := map[];
      new;
      ZeroAbsent();
    }

    /** alloc_page; where the source would go on with a null page the model reports None. */
    method AllocPage() returns (page: Option<nat>)
      requires Grounded()
      modifies this`tables, this`owner, heap`mem, heap`spine, heap`words
      ensures Grounded()
      ensures page.None? <==> old(NoRoom())
      ensures page.None? ==> tables == old(tables) && owner == old(owner)
                             && FirstFit(heap.Blocks(), Round16(PAGE + PAGE + WORD)) == |heap.Blocks()|
      ensures page.Some? ==> page.value !in old(tables) && IsFrame(page.value)
                             && tables == old(tables)[page.value := EmptyTable()]
    {
      hide AlignSpec, PowerOfTwo, Multiple, Round16, Pages, Alloc, FirstFit, Fits;
      ghost var bs := heap.Blocks();
      ghost var words := heap.words;
      ghost var need := Round16(PAGE + PAGE + WORD);
      PagePower();
      var virt := MallocAlign(heap, PAGE, PAGE);
      AlignServes(bs, words, PAGE, PAGE, heap.start, heap.end);
      if virt == H.NULL {
        return None;
      }
      ghost var i := FirstFit(bs, need);
      NewPage(bs, words, i, need, heap.Blocks(), heap.words, virt, hhdm, tables.Keys - {root}, owner, heap.start, heap.end);
      owner := owner[virt - hhdm := heap.Blocks()[i]];
      tables := tables[virt - hhdm := EmptyTable()];
      assert tables.Keys - {root} == old(tables.Keys) - {root} + {virt - hhdm};
      page := Some(virt - hhdm);
    }

    /** The store that hangs a fresh table under an absent entry. */
    method Hang(ghost before: Tables, t: nat, i: nat, c: nat)
      requires Grounded() && Tree(before, layout, root) && c !in before && IsFrame(c)
      requires tables == before[c := EmptyTable()]
      requires t in before && layout[t].level >= 2 && i < ENTRIES == |before[t]| && !Present(before[t][i])
      modifies this`tables, this`layout
      ensures Valid() && tables == AddTable(before, t, i, c)
      ensures layout == old(layout)[c := Node(old(layout)[t].level - 1, t, i)]
      ensures SameMapped(tables, before, root)
    {
      hide Tree, Pages, Translate, Present;
      TreeRow(before, layout, root, t);
      AddTableTree(before, layout, root, t, i, c);
      forall q | IsPath(q)
        ensures Translate(AddTable(before, t, i, c), root, q) == Translate(before, root, q)
      {
        AddTableTranslate(before, layout, root, t, i, c, q);
      }
      var e: nat := c + TABLE_FLAGS;
      var row: seq<nat> := tables[t][i := e];
      ghost var keys := tables.Keys;
      tables := tables[t := row];
      assert tables.Keys == keys;
      layout := layout[c := Node(layout[t].level - 1, t, i)];
    }

    /** The block of code that each of the three upper levels repeats: an absent entry gets
        a fresh table, and the entry is followed. */
    method EnsureTable(t: nat, i: nat) returns (child: Option<nat>)
      requires Valid() && t in tables && layout[t].level >= 2 && i < ENTRIES
      modifies this, heap`mem, heap`spine, heap`words
      ensures Valid()
      ensures child.None? <==> old(!Present(tables[t][i]) && NoRoom())
      ensures child.None? ==> tables == old(tables) && NoRoom()
      ensures child.Some? ==> child == Next(tables, t, i) && child.value in tables
                              && layout[child.value].level == old(layout[t].level) - 1
      ensures Grew(old(tables), old(layout))
      ensures SameMapped(tables, old(tables), root)
    {
      hide Tree, Pages, Base, Translate;
      TreeRow(tables, layout, root, t);
      if !Present(tables[t][i]) {
        var page := AllocPage();
        if page.None? {
          return None;
        }
        Hang(old(tables), t, i, page.value);
        TableEntry(page.value);
      }
      TreeStep(tables, layout, root, t, i);
      child := Some(Base(tables[t][i]));
    }

    /** One round of the mapping loops. */
    method MapPage(v: nat, p: nat, flags: nat) returns (ok: bool)
      requires Valid() && IsFrame(p) && IsFlags(flags)
      modifies this, heap`mem, heap`spine, heap`words
      ensures Valid()
      ensures ok ==> PageMapped(tables, old(tables), root, v, p, flags)
      ensures !ok ==> NoRoom() && SameMapped(tables, old(tables), root)
    {
      hide Tree, Pages, PathOf, Next, Round16, FirstFit, PageMapped, SameMapped, Entry, Present, Base;
      var way := PathOf(v);
      RootLevel(tables, layout, root);
      var pdpt := EnsureTable(root, way.i4);
      if pdpt.None? {
        return false;
      }
      ghost var after4 := tables;
      var pd := EnsureTable(pdpt.value, way.i3);
      SameTwice(tables, after4, old(tables), root);
      if pd.None? {
        return false;
      }
      ghost var after3 := tables;
      var pt := EnsureTable(pd.value, way.i2);
      SameTwice(tables, after3, old(tables), root);
      if pt.None? {
        return false;
      }
      assert LeafTable(tables, root, way) == pt;
      TreeRow(tables, layout, root, pt.value);
      ghost var before := tables;
      SetLeafMaps(before, old(tables), layout, root, pt.value, v, p, flags);
      StoreLeaf(pt.value, way.i1, Entry(p, flags));
      ok := true;
    }

    /** The last store of a round. */
    method StoreLeaf(t: nat, i: nat, e: nat)
      requires Valid() && t in tables && layout[t].level == 1 && i < |tables[t]| == ENTRIES
      modifies this`tables
      ensures Valid() && tables == SetLeaf(old(tables), t, i, e)
    {
      hide Tree, Pages;
      SetLeafTree(tables, layout, root, t, i, e);
      ghost var before := tables;
      var row: seq<nat> := tables[t][i := e];
      tables := tables[t := row];
      assert tables.Keys == before.Keys;
    }

    /** Map_memory_vp. `mapped` counts the bytes done: all of them, unless a table could not
        be had. */
    method MapMemoryVp(virt: nat, physical: nat, size: nat, flags: nat) returns (mapped: nat)
      requires Valid() && virt < U64 && virt % PAGE == 0 && IsFlags(flags)
      requires physical % PAGE == 0 && physical + size <= P52 && size <= P48
      modifies this, heap`mem, heap`spine, heap`words
      ensures Valid()
      ensures RangeMapped(tables, old(tables), root, virt, physical, flags, mapped)
      ensures mapped < size ==> NoRoom()
      ensures mapped >= size ==> forall q :: Offset(virt, q) < mapped <==> Offset(virt, q) < size
    {
      hide Tree, Pages, PageMapped, RangeMapped, SameMapped, Offset, IsFrame, IsFlags, Wrap64, FirstFit;
      var offset: nat := 0;
      RangeStarts(tables, root, virt, physical, flags);
      while offset < size
        invariant Valid() && offset % PAGE == 0 && offset < size + PAGE
        invariant RangeMapped(tables, old(tables), root, virt, physical, flags, offset)
      {
        ghost var before := tables;
        FrameAt(physical, offset);
        var ok := MapPage(Wrap64(virt + offset), physical + offset, flags);
        if !ok {
          RangeSame(tables, before, old(tables), root, virt, physical, flags, offset);
          return offset;
        }
        RangeStep(tables, before, old(tables), root, virt, physical, flags, offset);
        offset := offset + PAGE;
      }
      WholePages(virt, offset, size);
      mapped := offset;
    }

    /** Map_memory is Map_memory_vp with identity addresses on the rounded range, which may be
        empty, or a page when `end` lies before `start` inside it. */
    method MapMemory(start: nat, end: nat, flags: nat) returns (mapped: nat)
      requires Valid() && IsFlags(flags) && end <= P52 && RoundUp(end) <= RoundDown(start) + P48
      modifies this, heap`mem, heap`spine, heap`words
      ensures Valid()
      ensures RangeMapped(tables, old(tables), root, RoundDown(start), RoundDown(start), flags, mapped)
      ensures mapped < RoundUp(end) - RoundDown(start) ==> NoRoom()
      ensures mapped >= RoundUp(end) - RoundDown(start) ==>
        mapped == if RoundDown(start) < RoundUp(end) then RoundUp(end) - RoundDown(start) else 0
    {
      hide Tree, Pages, PageMapped, RangeMapped, SameMapped, Offset, IsFlags, FirstFit, IsFrame;
      var first: nat := start / PAGE * PAGE;
      var last: nat := (end + PAGE - 1) / PAGE * PAGE;
      var addr: nat := first;
      Rounded(start);
      Rounded(end + PAGE - 1);
      RangeStarts(tables, root, first, first, flags);
      while addr < last
        invariant Valid() && addr % PAGE == 0 && first <= addr && (addr > first ==> addr <= last)
        invariant RangeMapped(tables, old(tables), root, first, first, flags, addr - first)
      {
        ghost var before := tables;
        NextPage(addr, last);
        var ok := MapPage(addr, addr, flags);
        if !ok {
          RangeSame(tables, before, old(tables), root, first, first, flags, addr - first);
          return addr - first;
        }
        RangeStep(tables, before, old(tables), root, first, first, flags, addr - first);
        addr := addr + PAGE;
      }
      mapped := addr - first;
    }

    /** Tables keep their places and present entries stay as they are. */
    ghost predicate Grew(tables0: Tables, layout0: Layout)
      reads this
    {
      && (forall s :: s in tables0 && s in layout0 ==> s in tables && s in layout && layout[s] == layout0[s])
      && (forall s, j :: Next(tables0, s, j).Some? ==> Next(tables, s, j) == Next(tables0, s, j))
    }

    /** No block of the heap can hold another page. */
    ghost predicate NoRoom()
      requires heap.Valid()
      reads this, heap
    {
      FirstFit(heap.Blocks(), Round16(PAGE + PAGE + WORD)) == |heap.Blocks()|
    }
  }

  /** `start & ~4095` and `(end + 4095) & ~4095` */
  function RoundDown(x: nat): nat {
    x / PAGE * PAGE
  }

  function RoundUp(x: nat): nat {
    RoundDown(x + PAGE - 1)
  }

  /** The page of an address, and the first page behind it. */
  lemma RoundsToPages(x: nat)
    ensures RoundDown(x) <= x < RoundDown(x) + 4096 && RoundDown(x) % 4096 == 0
    ensures x <= RoundUp(x) < x + 4096 && RoundUp(x) % 4096 == 0
  {
  }

  lemma PagesApart(o: nat, offset: nat)
    requires o % PAGE == 0 && offset % PAGE == 0
    ensures o < offset + PAGE <==> o <= offset
    ensures o < offset || o == offset || o >= offset + PAGE
  {
  }

  lemma FrameAt(physical: nat, offset: nat)
    requires physical % PAGE == 0 && offset % PAGE == 0 && physical + offset < P52
    ensures IsFrame(physical + offset) && (offset + PAGE) % PAGE == 0
  {
  }

  lemma Rounded(x: nat)
    ensures RoundDown(x) % PAGE == 0 && RoundDown(x) <= x
  {
  }

  lemma NextPage(addr: nat, last: nat)
    requires addr % PAGE == 0 && last % PAGE == 0 && addr < last < P52 + PAGE
    ensures addr + PAGE <= last && (addr + PAGE) % PAGE == 0 && IsFrame(addr)
  {
  }

  /** Rounding the size up to whole pages adds no page. */
  lemma WholePages(virt: nat, offset: nat, size: nat)
    requires offset % PAGE == 0 && size <= offset < size + PAGE
    ensures forall q :: Offset(virt, q) < offset <==> Offset(virt, q) < size
  {
    hide Offset;
    forall q
      ensures Offset(virt, q) < offset <==> Offset(virt, q) < size
    {
      if offset > 0 {
        PagesApart(Offset(virt, q), offset - PAGE);
      }
    }
  }

  lemma RootLevel(mem: Tables, layout: Layout, root: nat)
    requires Tree(mem, layout, root)
    ensures root in mem && root in layout && layout[root].level == 4
  {
  }

  lemma TreeRow(mem: Tables, layout: Layout, root: nat, t: nat)
    requires Tree(mem, layout, root) && t in mem
    ensures |mem[t]| == ENTRIES && t in layout
  {
  }

  lemma TreeStep(mem: Tables, layout: Layout, root: nat, t: nat, i: nat)
    requires Tree(mem, layout, root) && t in mem && i < ENTRIES && |mem[t]| == ENTRIES
    requires layout[t].level >= 2 && Present(mem[t][i])
    ensures var c := Base(mem[t][i]); c in mem && c in layout && layout[c].level == layout[t].level - 1
  {
    assert EntryOk(mem, layout, t, i);
  }

  lemma PagePower()
    ensures PowerOfTwo(PAGE)
  {
    PowerIs(12);
    assert Power(3) == 8;
    PowerSum(3, 3);
    PowerSum(6, 6);
  }
}
