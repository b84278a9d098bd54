/** The four-level page tables that Map_memory and Map_memory_vp fill on demand, with pages
    taken from the heap. */
module Paging {
  import opened Machine
  import opened BlockList
  import opened AlignedHeap
  import H = Heap

  const PAGE: nat := 4096
  const ENTRIES: nat := 512
  /** Present | Writable | User, what every entry that points to a table carries. */
  const TABLE_FLAGS: nat := 7
  const P40: nat := 0x100_0000_0000
  const P52: nat := 0x10_0000_0000_0000
  const P63: nat := 0x8000_0000_0000_0000

  // ----- entries -----

  /** Flags use bits 0 to 11 and bit 63. */
  predicate IsFlags(flags: nat) {
    flags < PAGE || P63 <= flags < P63 + PAGE
  }

  predicate IsFrame(p: nat) {
    p % PAGE == 0 && p < P52
  }

  /** The word `frame | flags`; the bits are apart (see OrIsSum). */
  function Entry(frame: nat, flags: nat): nat
    requires IsFrame(frame) && IsFlags(flags)
  {
    frame + flags
  }

  /** On 64-bit words the frame and the flags have no bit in common. */
  lemma OrIsSum(frame: bv64, flags: bv64)
    requires frame & 0xFFF0_0000_0000_0FFF == 0
    requires flags & 0x7FFF_FFFF_FFFF_F000 == 0
    ensures frame | flags == frame + flags
    ensures (frame | flags) & 0x000F_FFFF_FFFF_F000 == frame
  {
  }

  predicate Present(e: nat) {
    e % 2 == 1
  }

  /** `e & ~0xFFF`, as the code follows an entry. */
  function Base(e: nat): nat {
    e - e % PAGE
  }

  /** Bits 12 to 51, as the processor reads a leaf. */
  function Frame(e: nat): nat {
    e / PAGE % P40 * PAGE
  }

  function Flags(e: nat): nat {
    e % PAGE + (if e >= P63 then P63 else 0)
  }

  lemma EntryParts(frame: nat, flags: nat)
    requires IsFrame(frame) && IsFlags(flags)
    ensures Frame(Entry(frame, flags)) == frame
    ensures Flags(Entry(frame, flags)) == flags
    ensures Present(Entry(frame, flags)) == Present(flags)
    ensures Writable(Entry(frame, flags)) == Writable(flags)
    ensures User(Entry(frame, flags)) == User(flags)
  {
    var e := Entry(frame, flags);
    var k := frame / PAGE;
    assert frame == k * PAGE && k < P40;
    if flags < PAGE {
      assert e / PAGE == k && e % PAGE == flags;
    } else {
      assert e / PAGE == k + 0x8_0000_0000_0000 && e % PAGE == flags - P63;
      assert (k + 0x8_0000_0000_0000) % P40 == k;
    }
    LowBits(k, flags);
  }

  lemma LowBits(k: nat, flags: nat)
    ensures Present(k * PAGE + flags) == Present(flags)
    ensures Writable(k * PAGE + flags) == Writable(flags)
    ensures User(k * PAGE + flags) == User(flags)
  {
    DivUnique(k * PAGE + flags, 2, k * 2048 + flags / 2, flags % 2);
    DivUnique(k * PAGE + flags, 4, k * 1024 + flags / 4, flags % 4);
    DivUnique(k * 2048 + flags / 2, 2, k * 1024 + flags / 2 / 2, flags / 2 % 2);
    DivUnique(k * 1024 + flags / 4, 2, k * 512 + flags / 4 / 2, flags / 4 % 2);
  }

  // ----- the walk -----

  /** The four table indices of a linear address. */
  datatype Path = Path(i4: nat, i3: nat, i2: nat, i1: nat)

  predicate IsPath(q: Path) {
    q.i4 < ENTRIES && q.i3 < ENTRIES && q.i2 < ENTRIES && q.i1 < ENTRIES
  }

  /** `(v >> 39) & 0x1FF` and so on. */
  function PathOf(v: nat): (q: Path)
    ensures IsPath(q)
  {
    Path(v / 0x80_0000_0000 % 512, v / 0x4000_0000 % 512, v / 0x20_0000 % 512, v / 0x1000 % 512)
  }

  /** Table memory: the 512 words of every table, by physical address. */
  type Tables = map<nat, seq<nat>>

  function Word(mem: Tables, t: nat, i: nat): nat {
    if t in mem && i < |mem[t]| then mem[t][i] else 0
  }

  /** The table that entry i of table t points to. */
  function Next(mem: Tables, t: nat, i: nat): Option<nat> {
    var e := Word(mem, t, i);
    if Present(e) then Some(Base(e)) else None
  }

  /** The last-level table on a path. */
  function LeafTable(mem: Tables, root: nat, q: Path): Option<nat> {
    var t3 := Next(mem, root, q.i4);
    if t3.None? then None else
    var t2 := Next(mem, t3.value, q.i3);
    if t2.None? then None else
    Next(mem, t2.value, q.i2)
  }

  predicate Writable(e: nat) {
    e / 2 % 2 == 1
  }

  predicate User(e: nat) {
    e / 4 % 2 == 1
  }

  /** Bit 0 of an entry says present, bit 1 writable, bit 2 user. */
  lemma RightsBits(e: nat)
    ensures Present(e) <==> And(e, 1) != 0
    ensures Writable(e) <==> And(e, 2) != 0
    ensures User(e) <==> And(e, 4) != 0
  {
    ThreeBits(e);
  }

  /** What the processor makes of a page: the frame, the leaf's flags, and the rights that
      remain after all four levels. */
  datatype Mapping = Mapping(frame: nat, flags: nat, writable: bool, user: bool)

  /** The walk of Intel SDM Vol. 3A section 4.5, for 4 KiB pages. */
  function Translate(mem: Tables, root: nat, q: Path): Option<Mapping> {
    var t3 := Next(mem, root, q.i4);
    if t3.None? then None else
    var t2 := Next(mem, t3.value, q.i3);
    if t2.None? then None else
    var t1 := Next(mem, t2.value, q.i2);
    if t1.None? then None else
    var e4, e3, e2 := Word(mem, root, q.i4), Word(mem, t3.value, q.i3), Word(mem, t2.value, q.i2);
    var e1 := Word(mem, t1.value, q.i1);
    if !Present(e1) then None else
    Some(Mapping(Frame(e1), Flags(e1),
                 Writable(e4) && Writable(e3) && Writable(e2) && Writable(e1),
                 User(e4) && User(e3) && User(e2) && User(e1)))
  }

  // ----- the tables form a tree -----

  /** Where a table hangs: its level (4 is the root's) and the one entry that points to it. */
  datatype Node = Node(level: nat, parent: nat, index: nat)

  type Layout = map<nat, Node>

  /** Entry i of table t is absent or points, with the table flags, to a table one level
      down whose only place is here. */
  ghost predicate EntryOk(mem: Tables, layout: Layout, t: nat, i: nat)
    requires t in mem && t in layout && i < |mem[t]|
  {
    layout[t].level >= 2 && Present(mem[t][i]) ==>
      var c := Base(mem[t][i]);
      && c in mem && c in layout
      && mem[t][i] == c + TABLE_FLAGS
      && layout[c] == Node(layout[t].level - 1, t, i)
  }

  ghost predicate Tree(mem: Tables, layout: Layout, root: nat) {
    && mem.Keys == layout.Keys
    && root in mem && layout[root].level == 4
    && (forall t :: t in mem ==> |mem[t]| == ENTRIES && 1 <= layout[t].level <= 4)
    && (forall t, i :: t in mem && 0 <= i < ENTRIES ==> EntryOk(mem, layout, t, i))
  }

  /** No table is reached by two paths: a table and a level fix the way to it. */
  lemma OnePath(mem: Tables, layout: Layout, root: nat, q: Path, r: Path)
    requires Tree(mem, layout, root) && IsPath(q) && IsPath(r)
    requires LeafTable(mem, root, q).Some? && LeafTable(mem, root, q) == LeafTable(mem, root, r)
    ensures q.i4 == r.i4 && q.i3 == r.i3 && q.i2 == r.i2
  {
    LeafLevels(mem, layout, root, q);
    LeafLevels(mem, layout, root, r);
  }

  /** The tables met on a path, with their levels and places. */
  lemma LeafLevels(mem: Tables, layout: Layout, root: nat, q: Path)
    requires Tree(mem, layout, root) && IsPath(q) && LeafTable(mem, root, q).Some?
    ensures var t3 := Next(mem, root, q.i4).value;
            var t2 := Next(mem, t3, q.i3).value;
            var t1 := Next(mem, t2, q.i2).value;
            && LeafTable(mem, root, q) == Some(t1)
            && t3 in mem && layout[t3] == Node(3, root, q.i4)
            && t2 in mem && layout[t2] == Node(2, t3, q.i3)
            && t1 in mem && layout[t1] == Node(1, t2, q.i2)
            && Word(mem, root, q.i4) == t3 + TABLE_FLAGS
            && Word(mem, t3, q.i3) == t2 + TABLE_FLAGS
            && Word(mem, t2, q.i2) == t1 + TABLE_FLAGS
  {
    hide Base, Present;
    assert EntryOk(mem, layout, root, q.i4);
    var t3 := Next(mem, root, q.i4).value;
    assert EntryOk(mem, layout, t3, q.i3);
    var t2 := Next(mem, t3, q.i3).value;
    assert EntryOk(mem, layout, t2, q.i2);
  }

  // ----- growing the tree -----

  /** A page after the memset. */
  function EmptyTable(): (r: seq<nat>)
    ensures |r| == ENTRIES && forall i :: 0 <= i < ENTRIES ==> r[i] == 0
  {
    seq<nat>(ENTRIES, _ => 0)
  }

  function AddTable(mem: Tables, t: nat, i: nat, c: nat): Tables
    requires t in mem && i < |mem[t]| && c != t
  {
    var e: nat := c + TABLE_FLAGS;
    var row: seq<nat> := mem[t][i := e];
    mem[c := EmptyTable()][t := row]
  }

  lemma TableEntry(c: nat)
    requires c % PAGE == 0
    ensures Present(c + TABLE_FLAGS) && Writable(c + TABLE_FLAGS) && User(c + TABLE_FLAGS)
    ensures Base(c + TABLE_FLAGS) == c
  {
    var k := c / PAGE;
    LowBits(k, TABLE_FLAGS);
    DivUnique(k * PAGE + TABLE_FLAGS, PAGE, k, TABLE_FLAGS);
  }

  lemma AddTableTree(mem: Tables, layout: Layout, root: nat, t: nat, i: nat, c: nat)
    requires Tree(mem, layout, root) && t in mem && layout[t].level >= 2 && i < ENTRIES
    requires !Present(mem[t][i]) && c !in mem && c % PAGE == 0
    ensures Tree(AddTable(mem, t, i, c), layout[c := Node(layout[t].level - 1, t, i)], root)
  {
    TableEntry(c);
    hide Base, Present;
    var mem' := AddTable(mem, t, i, c);
    var layout' := layout[c := Node(layout[t].level - 1, t, i)];
    forall s, j | s in mem' && 0 <= j < ENTRIES
      ensures EntryOk(mem', layout', s, j)
    {
      if s == c {
        assert mem'[s][j] == 0;
        ZeroAbsent();
      } else if s != t || j != i {
        assert EntryOk(mem, layout, s, j);
        assert mem'[s][j] == mem[s][j];
      }
    }
  }

  lemma ZeroAbsent()
    ensures !Present(0)
  {
  }

  /** A new empty table changes no translation. */
  lemma AddTableTranslate(mem: Tables, layout: Layout, root: nat, t: nat, i: nat, c: nat, q: Path)
    requires Tree(mem, layout, root) && t in mem && layout[t].level >= 2 && i < ENTRIES
    requires !Present(mem[t][i]) && c !in mem && c % PAGE == 0 && IsPath(q)
    ensures Translate(AddTable(mem, t, i, c), root, q) == Translate(mem, root, q)
  {
    TableEntry(c);
    ZeroAbsent();
    hide Base, Present, Tree, Frame, Flags, Writable, User;
    var mem' := AddTable(mem, t, i, c);
    assert forall s, j :: s != t || j != i ==> Word(mem', s, j) == Word(mem, s, j);
    assert Word(mem', t, i) == c + TABLE_FLAGS && !Present(Word(mem, t, i));
    assert forall j :: Word(mem', c, j) == 0;
    if LeafTable(mem, root, q).Some? {
      LeafLevels(mem, layout, root, q);
    }
  }

  function SetLeaf(mem: Tables, t: nat, i: nat, e: nat): Tables
    requires t in mem && i < |mem[t]|
  {
    var row: seq<nat> := mem[t][i := e];
    mem[t := row]
  }

  lemma SetLeafTree(mem: Tables, layout: Layout, root: nat, t: nat, i: nat, e: nat)
    requires Tree(mem, layout, root) && t in mem && layout[t].level == 1 && i < ENTRIES
    ensures Tree(SetLeaf(mem, t, i, e), layout, root)
  {
    hide Base, Present;
    var mem' := SetLeaf(mem, t, i, e);
    forall s, j | s in mem' && 0 <= j < ENTRIES
      ensures EntryOk(mem', layout, s, j)
    {
      assert EntryOk(mem, layout, s, j);
    }
  }

  lemma SetLeafSameWay(mem: Tables, layout: Layout, root: nat, t: nat, i: nat, e: nat, q: Path)
    requires Tree(mem, layout, root) && t in mem && layout[t].level == 1 && i < ENTRIES && IsPath(q)
    ensures LeafTable(SetLeaf(mem, t, i, e), root, q) == LeafTable(mem, root, q)
  {
    hide Base, Present;
    var mem' := SetLeaf(mem, t, i, e);
    assert forall s, j :: s != t || j != i ==> Word(mem', s, j) == Word(mem, s, j);
    assert root != t;
    var t3 := Next(mem, root, q.i4);
    if t3.Some? {
      assert EntryOk(mem, layout, root, q.i4);
      assert t3.value != t;
      var t2 := Next(mem, t3.value, q.i3);
      if t2.Some? {
        assert EntryOk(mem, layout, t3.value, q.i3);
        assert t2.value != t;
      }
    }
  }

  /** A leaf entry and the four rights bits decide a translation. */
  lemma TranslateLeaf(mem: Tables, layout: Layout, root: nat, q: Path)
    requires Tree(mem, layout, root) && IsPath(q)
    ensures Translate(mem, root, q) ==
            if LeafTable(mem, root, q).None? then None
            else LeafMapping(Word(mem, LeafTable(mem, root, q).value, q.i1))
  {
    if LeafTable(mem, root, q).Some? {
      LeafLevels(mem, layout, root, q);
      LeafAligned(mem, layout, root, q.i4);
      var t3 := Next(mem, root, q.i4).value;
      LeafAligned(mem, layout, t3, q.i3);
      var t2 := Next(mem, t3, q.i3).value;
      LeafAligned(mem, layout, t2, q.i2);
    }
  }

  /** Interior entries restrict no right. */
  lemma LeafAligned(mem: Tables, layout: Layout, t: nat, i: nat)
    requires t in mem && t in layout && i < |mem[t]| && layout[t].level >= 2 && Present(mem[t][i])
    requires EntryOk(mem, layout, t, i)
    ensures Writable(mem[t][i]) && User(mem[t][i])
  {
    TableEntry(Base(mem[t][i]));
  }

  /** What a leaf entry means on its own. */
  function LeafMapping(e: nat): Option<Mapping> {
    if Present(e) then Some(Mapping(Frame(e), Flags(e), Writable(e), User(e))) else None
  }

  /** What mapping `frame` with `flags` should give: exactly these flags as rights. */
  function Mapped(frame: nat, flags: nat): Option<Mapping> {
    if Present(flags) then Some(Mapping(frame, flags, Writable(flags), User(flags))) else None
  }

  /** Writing a leaf sets the translation of its page and of no other. */
  lemma SetLeafTranslate(mem: Tables, layout: Layout, root: nat, p: Path, frame: nat, flags: nat, q: Path)
    requires Tree(mem, layout, root) && IsPath(p) && IsPath(q)
    requires LeafTable(mem, root, p).Some? && IsFrame(frame) && IsFlags(flags)
    requires LeafTable(mem, root, p).value in mem
    requires |mem[LeafTable(mem, root, p).value]| == ENTRIES
    ensures var mem' := SetLeaf(mem, LeafTable(mem, root, p).value, p.i1, Entry(frame, flags));
            Translate(mem', root, q) == if q == p then Mapped(frame, flags) else Translate(mem, root, q)
  {
    LeafLevels(mem, layout, root, p);
    hide LeafTable, Tree, Frame, Flags, Writable, User, Present, Entry, Base;
    var t := LeafTable(mem, root, p).value;
    var e := Entry(frame, flags);
    var mem' := SetLeaf(mem, t, p.i1, e);
    SetLeafTree(mem, layout, root, t, p.i1, e);
    SetLeafSameWay(mem, layout, root, t, p.i1, e, q);
    TranslateLeaf(mem, layout, root, q);
    TranslateLeaf(mem', layout, root, q);
    EntryParts(frame, flags);
    if LeafTable(mem, root, q) == Some(t) && q != p {
      OnePath(mem, layout, root, p, q);
    }
  }

  // ----- page numbers -----

  const P36: nat := 0x10_0000_0000
  const P48: nat := 0x1_0000_0000_0000

  /** The 36-bit page number whose digits are the four indices. */
  function PageNumber(q: Path): nat {
    ((q.i4 * 512 + q.i3) * 512 + q.i2) * 512 + q.i1
  }

  /** A path is the digits of the page number of its addresses, so a page has one path. */
  lemma PathDigits(v: nat, q: Path)
    requires IsPath(q)
    ensures q == PathOf(v) <==> PageNumber(q) == v / PAGE % P36
  {
    var n := v / PAGE;
    assert v / 0x20_0000 == n / 0x200 && v / 0x4000_0000 == n / 0x4_0000 && v / 0x80_0000_0000 == n / 0x800_0000;
    var a, b, c := n / 0x200, n / 0x4_0000, n / 0x800_0000;
    assert b == a / 0x200 && c == b / 0x200;
    LastDigits(n, a, b);
    assert PageNumber(PathOf(v)) == n % P36;
    DigitsUnique(q, PathOf(v));
  }

  lemma LastDigits(n: nat, a: nat, b: nat)
    requires a == n / 512 && b == a / 512
    ensures n % P36 == a % 0x800_0000 * 512 + n % 512
    ensures a % 0x800_0000 == b % 0x4_0000 * 512 + a % 512
    ensures b % 0x4_0000 == b / 512 % 512 * 512 + b % 512
  {
    LastDigit(n, 0x800_0000);
    LastDigit(a, 0x4_0000);
    LastDigit(b, 512);
  }

  lemma LastDigit(n: nat, m: nat)
    requires m > 0
    ensures n % (m * 512) == n / 512 % m * 512 + n % 512
  {
    var a, r := n / 512, n % 512;
    var c, d := a / m, a % m;
    assert a == c * m + d;
    assert n == c * (m * 512) + (d * 512 + r) by {
      assert c * (m * 512) == c * m * 512;
    }
    DivUnique(n, m * 512, c, d * 512 + r);
  }

  lemma DigitsUnique(q: Path, r: Path)
    requires IsPath(q) && IsPath(r)
    ensures PageNumber(q) == PageNumber(r) <==> q == r
  {
    Digit((q.i4 * 512 + q.i3) * 512 + q.i2, q.i1, (r.i4 * 512 + r.i3) * 512 + r.i2, r.i1);
    Digit(q.i4 * 512 + q.i3, q.i2, r.i4 * 512 + r.i3, r.i2);
    Digit(q.i4, q.i3, r.i4, r.i3);
  }

  lemma Digit(a: nat, b: nat, c: nat, d: nat)
    requires b < 512 && d < 512
    ensures a * 512 + b == c * 512 + d <==> a == c && b == d
  {
  }

  /** Distance in bytes from `virt` up to the page of a path, around the 48-bit space. */
  function Offset(virt: nat, q: Path): (o: nat)
    ensures o % PAGE == 0
  {
    (PageNumber(q) + P36 - virt / PAGE % P36) % P36 * PAGE
  }

  lemma OffsetIs(virt: nat, offset: nat, q: Path)
    requires IsPath(q) && virt < U64 && offset < P48 && virt % PAGE == 0 && offset % PAGE == 0
    ensures q == PathOf(Wrap64(virt + offset)) <==> Offset(virt, q) == offset
  {
    Wrap64Is(virt + offset);
    var v := Wrap64(virt + offset);
    PathDigits(v, q);
    WrapPage(virt + offset);
    var k := offset / PAGE;
    assert offset == k * PAGE && k < P36;
    assert (virt + offset) / PAGE == virt / PAGE + k;
    Around(PageNumber(q), virt / PAGE, k);
  }

  lemma WrapPage(x: nat)
    ensures x % U64 / PAGE % P36 == x / PAGE % P36
  {
    var w, y := x / U64, x % U64;
    assert x == w * U64 + y;
    UpperPages(w, y);
    DropUpper(w, y / PAGE);
  }

  lemma UpperPages(w: nat, y: nat)
    ensures (w * U64 + y) / PAGE == w * P52 + y / PAGE
  {
    var a, b := y / PAGE, y % PAGE;
    assert y == a * PAGE + b;
    DivUnique(w * U64 + y, PAGE, w * P52 + a, b);
  }

  lemma DropUpper(w: nat, z: nat)
    ensures (w * P52 + z) % P36 == z % P36
  {
    var a, b := z / P36, z % P36;
    assert z == a * P36 + b;
    DivUnique(w * P52 + z, P36, w * 0x1_0000 + a, b);
  }

  lemma Around(n: nat, a: nat, k: nat)
    requires n < P36 && k < P36
    ensures n == (a + k) % P36 <==> (n + P36 - a % P36) % P36 == k
  {
  }
}
