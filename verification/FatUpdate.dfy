/** What an update of the allocation table means for every table, entry and successor. */
module FatUpdate {
  import opened Machine
  import opened Memory
  import opened Fat
  import D = Disk

  /** The bytes of one table. */
  function Table(data: seq<Byte>, g: Geometry, index: nat): seq<Byte> {
    Slice(data, g.FatStart(index), g.FatSize())
  }

  /** All tables lie on the disk. */
  predicate OnDisk(data: seq<Byte>, g: Geometry) {
    g.FatStart(g.fats) <= |data|
  }

  lemma TableFits(data: seq<Byte>, g: Geometry, index: nat)
    requires OnDisk(data, g) && index < g.fats
    ensures g.FatStart(index) + g.FatSize() <= |data|
  {
    FatsApart(g, index, g.fats);
  }

  lemma EntryInTable(data: seq<Byte>, g: Geometry, index: nat, c: nat)
    requires OnDisk(data, g) && index < g.fats && g.InFat(c)
    ensures WordAt(data, g.EntryAt(index, c)) == WordAt(Table(data, g, index), 4 * c)
  {
    TableFits(data, g, index);
    SliceSlice(data, g.FatStart(index), g.FatSize(), 4 * c, 4);
  }

  /** One write of an entry changes its own table at its own place, and nothing else. */
  lemma WriteOne(data: seq<Byte>, g: Geometry, i: nat, c: nat, word: seq<Byte>, j: nat)
    requires OnDisk(data, g) && i < g.fats && j < g.fats && g.InFat(c) && |word| == 4
    ensures Table(Overwrite(data, g.EntryAt(i, c), word), g, j) ==
            if j == i then Overwrite(Table(data, g, j), 4 * c, word) else Table(data, g, j)
  {
    hide Overwrite, Slice;
    TableFits(data, g, i);
    TableFits(data, g, j);
    if j == i {
      OverwriteWithin(data, g.FatStart(i), g.FatSize(), 4 * c, word);
    } else {
      if i < j {
        FatsApart(g, i, j);
      } else {
        FatsApart(g, j, i);
      }
      OverwriteOther(data, g.EntryAt(i, c), word, g.FatStart(j), g.FatSize());
    }
  }

  lemma OverwriteWithin(d: seq<Byte>, base: nat, n: nat, o: nat, s: seq<Byte>)
    requires base + n <= |d| && o + |s| <= n
    ensures Slice(Overwrite(d, base + o, s), base, n) == Overwrite(Slice(d, base, n), o, s)
  {
    hide Overwrite;
    OverwriteSlice(d, base, n, Slice(d, base, n), o, s);
    OverwriteRead(d, base, Overwrite(Slice(d, base, n), o, s));
  }

  lemma {:induction false} MirrorTables(data: seq<Byte>, g: Geometry, c: nat, word: seq<Byte>, k: nat, j: nat)
    requires OnDisk(data, g) && j < g.fats && g.InFat(c) && |word| == 4
    ensures Table(Mirror(data, g, c, word, k), g, j) ==
            if k <= j then Overwrite(Table(data, g, j), 4 * c, word) else Table(data, g, j)
    decreases g.fats - k
  {
    hide Overwrite, Table;
    if k < g.fats {
      var next := Overwrite(data, g.EntryAt(k, c), word);
      MirrorTables(next, g, c, word, k + 1, j);
      WriteOne(data, g, k, c, word, j);
    }
  }

  /** Bytes [a, a + n) lie before the first table or behind the last. */
  predicate Outside(g: Geometry, a: nat, n: nat) {
    a + n <= g.FatStart(0) || g.FatStart(g.fats) <= a
  }

  lemma WriteOutside(data: seq<Byte>, g: Geometry, i: nat, c: nat, word: seq<Byte>, a: nat, n: nat)
    requires OnDisk(data, g) && i < g.fats && g.InFat(c) && |word| == 4 && Outside(g, a, n)
    ensures Slice(Overwrite(data, g.EntryAt(i, c), word), a, n) == Slice(data, a, n)
  {
    hide Overwrite, Slice;
    FatsApart(g, i, g.fats);
    if i > 0 {
      FatsApart(g, 0, i);
    }
    OverwriteOther(data, g.EntryAt(i, c), word, a, n);
  }

  lemma {:induction false} MirrorOutside(data: seq<Byte>, g: Geometry, c: nat, word: seq<Byte>, k: nat, a: nat, n: nat)
    requires OnDisk(data, g) && g.InFat(c) && |word| == 4 && Outside(g, a, n)
    ensures Slice(Mirror(data, g, c, word, k), a, n) == Slice(data, a, n)
    decreases g.fats - k
  {
    if k < g.fats {
      MirrorOutside(Overwrite(data, g.EntryAt(k, c), word), g, c, word, k + 1, a, n);
      WriteOutside(data, g, k, c, word, a, n);
    }
  }

  /** The update writes one word into the active table or, mirrored, into every table; all
      bytes outside the tables stay. */
  lemma UpdateTables(data: seq<Byte>, g: Geometry, c: nat, value: nat, j: nat)
    requires OnDisk(data, g) && g.Active() < g.fats && j < g.fats && g.InFat(c)
    ensures var word := ToLe(NewWord(WordAt(data, g.EntryAt(g.Active(), c)), value));
            Table(Updated(data, g, c, value), g, j) ==
            if g.Mirrored() || j == g.Active() then Overwrite(Table(data, g, j), 4 * c, word)
            else Table(data, g, j)
  {
    hide Overwrite, Table, NewWord, ToLe;
    var p := g.EntryAt(g.Active(), c);
    var word := ToLe(NewWord(WordAt(data, p), value));
    WriteOne(data, g, g.Active(), c, word, j);
    if g.Mirrored() {
      MirrorTables(Overwrite(data, p, word), g, c, word, 1, j);
    }
  }

  lemma UpdateOutside(data: seq<Byte>, g: Geometry, c: nat, value: nat, a: nat, n: nat)
    requires OnDisk(data, g) && g.Active() < g.fats && g.InFat(c) && Outside(g, a, n)
    ensures Slice(Updated(data, g, c, value), a, n) == Slice(data, a, n)
  {
    hide Overwrite, Slice, NewWord, ToLe;
    var p := g.EntryAt(g.Active(), c);
    var word := ToLe(NewWord(WordAt(data, p), value));
    WriteOutside(data, g, g.Active(), c, word, a, n);
    if g.Mirrored() {
      MirrorOutside(Overwrite(data, p, word), g, c, word, 1, a, n);
    }
  }

  /** The words of the active table after the update. */
  lemma UpdateWord(data: seq<Byte>, g: Geometry, c: nat, value: nat, d: nat)
    requires OnDisk(data, g) && g.Active() < g.fats && g.InFat(c) && g.InFat(d)
    ensures var p := g.EntryAt(g.Active(), d);
            WordAt(Updated(data, g, c, value), p) ==
            if d == c then NewWord(WordAt(data, p), value) else WordAt(data, p)
  {
    hide Overwrite, Table, NewWord, ToLe, FromLe, Updated;
    var w := NewWord(WordAt(data, g.EntryAt(g.Active(), c)), value);
    var t := Table(data, g, g.Active());
    UpdateTables(data, g, c, value, g.Active());
    EntryInTable(data, g, g.Active(), d);
    EntryInTable(Updated(data, g, c, value), g, g.Active(), d);
    TableLength(data, g);
    if d == c {
      OverwriteRead(t, 4 * c, ToLe(w));
      LeRoundTrip(w);
    } else {
      OverwriteOther(t, 4 * c, ToLe(w), 4 * d, 4);
    }
  }

  lemma TableLength(data: seq<Byte>, g: Geometry)
    requires OnDisk(data, g) && g.Active() < g.fats
    ensures |Table(data, g, g.Active())| == g.FatSize()
  {
    TableFits(data, g, g.Active());
  }

  /** After the update the successor of the cluster is what the new value says (a cluster
      number gives itself, an end-of-chain mark gives 0), every other successor is as it was,
      and the four top bits of the entry survive. */
  lemma UpdateSuccessor(data: seq<Byte>, g: Geometry, c: nat, value: nat, d: nat)
    requires g.sectorSize > 0 && OnDisk(data, g) && g.Active() < g.fats
    requires g.InFat(c) && 2 <= c <= g.maxCluster && g.InFat(d)
    ensures var after := Updated(data, g, c, value);
            && Successor(after, g, c) == NextOf(value % P28, g.maxCluster)
            && (d != c ==> Successor(after, g, d) == Successor(data, g, d))
            && WordAt(after, g.EntryAt(g.Active(), c)) / P28 == WordAt(data, g.EntryAt(g.Active(), c)) / P28
  {
    hide Updated, NextOf, WordAt;
    UpdateWord(data, g, c, value, c);
    UpdateWord(data, g, c, value, d);
    TableFits(data, g, g.Active());
  }

  /** The entry's place: behind the reserved sectors and j tables, four bytes a cluster. */
  lemma {:induction false} EntryPlace(g: Geometry, j: nat, c: nat)
    ensures g.EntryAt(j, c) == (g.startLba + g.reserved + j * g.sectorsPerFat) * g.sectorSize + 4 * c
  {
    FatLbaIs(g, j);
    EntryLba(g, j);
  }

  lemma EntryLba(g: Geometry, j: nat)
    ensures D.Base(g.FatLba(j), g.sectorSize) == (g.startLba + g.reserved + j * g.sectorsPerFat) * g.sectorSize
  {
  }

  /** Cluster numbers from 2 to max_cluster are looked up, when their entry in the active table is on
      the disk; for all others there is no answer. */
  lemma LookedUp(data: seq<Byte>, g: Geometry, c: nat)
    ensures Successor(data, g, c).Some? <==>
              && g.sectorSize > 0 && 2 <= c <= g.maxCluster && g.Active() < g.fats
              && (g.startLba + g.reserved + g.Active() * g.sectorsPerFat) * g.sectorSize + 4 * c + 4 <= |data|
              && NextOf(WordAt(data, g.EntryAt(g.Active(), c)) % 0x1000_0000, g.maxCluster).Some?
  {
    hide NextOf, WordAt;
    EntryPlace(g, g.Active(), c);
  }

  /** Exactly the numbers of clusters read back as such and exactly the end-of-chain marks as 0;
      free, reserved and bad entries have no successor. */
  lemma StoredNext(value: nat, maxCluster: nat, c: nat)
    requires value < 0x1000_0000
    ensures NextOf(value % P28, maxCluster) == Some(0) <==> value >= 0x0FFF_FFF8
    ensures c > 0 ==>
              (NextOf(value % P28, maxCluster) == Some(c) <==> c == value && 2 <= c <= maxCluster && c < 0x0FFF_FFF0)
  {
  }

  /** With mirroring on, tables that were identical stay identical. */
  lemma MirrorsStayEqual(data: seq<Byte>, g: Geometry, c: nat, value: nat, i: nat, j: nat)
    requires OnDisk(data, g) && g.Mirrored() && i < g.fats && j < g.fats && g.InFat(c)
    requires Table(data, g, i) == Table(data, g, j)
    ensures Table(Updated(data, g, c, value), g, i) == Table(Updated(data, g, c, value), g, j)
  {
    hide Updated, Table, Overwrite;
    UpdateTables(data, g, c, value, i);
    UpdateTables(data, g, c, value, j);
  }

  // ----- what the flag word says -----

  /** Bit 7 of the flags turns mirroring off; bits 0 to 3 then name the active table. */
  lemma FlagBits(g: Geometry)
    ensures And(g.flags, 0x80) == 0 ==> g.Mirrored() && g.Active() == 0
    ensures And(g.flags, 0x80) != 0 ==> !g.Mirrored() && g.Active() == And(g.flags, 0x0F)
  {
    var x := g.flags;
    SeventhBit(x);
    LowNibble(x);
  }

  /** The word an entry of a table gets. */
  predicate EntryUpdated(before: nat, after: nat, value: nat) {
    after % 0x1000_0000 == value % 0x1000_0000 && after / 0x1000_0000 == before / 0x1000_0000
  }

  /** With bit 7 of the flags clear, every table gets the new entry and no other change, and table 0
      answers lookups. */
  lemma MirroringOn(data: seq<Byte>, g: Geometry, c: nat, value: nat, j: nat)
    requires OnDisk(data, g) && j < g.fats && g.InFat(c) && And(g.flags, 0x80) == 0
    ensures var word := WordAt(Updated(data, g, c, value), g.EntryAt(j, c));
            && EntryUpdated(WordAt(data, g.EntryAt(0, c)), word, value)
            && Table(Updated(data, g, c, value), g, j) == Overwrite(Table(data, g, j), 4 * c, ToLe(word))
    ensures g.sectorSize > 0 && 2 <= c <= g.maxCluster ==>
              Successor(data, g, c) == NextOf(WordAt(data, g.EntryAt(0, c)) % 0x1000_0000, g.maxCluster)
  {
    hide Updated, Overwrite, Slice, ToLe, WordAt, NextOf;
    FlagBits(g);
    UpdateTables(data, g, c, value, j);
    TableWord(data, g, c, value, j, NewWord(WordAt(data, g.EntryAt(0, c)), value));
    TableFits(data, g, 0);
  }

  /** With bit 7 set, exactly the table that bits 0 to 3 name changes and answers. */
  lemma MirroringOff(data: seq<Byte>, g: Geometry, c: nat, value: nat, j: nat)
    requires OnDisk(data, g) && j < g.fats && g.InFat(c) && And(g.flags, 0x80) != 0 && And(g.flags, 0x0F) < g.fats
    ensures j != And(g.flags, 0x0F) ==> Table(Updated(data, g, c, value), g, j) == Table(data, g, j)
    ensures j == And(g.flags, 0x0F) ==>
              var word := WordAt(Updated(data, g, c, value), g.EntryAt(j, c));
              && EntryUpdated(WordAt(data, g.EntryAt(j, c)), word, value)
              && Table(Updated(data, g, c, value), g, j) == Overwrite(Table(data, g, j), 4 * c, ToLe(word))
              && (g.sectorSize > 0 && 2 <= c <= g.maxCluster ==>
                    Successor(data, g, c) == NextOf(WordAt(data, g.EntryAt(j, c)) % 0x1000_0000, g.maxCluster))
  {
    hide Updated, Overwrite, Slice, ToLe, WordAt, NextOf;
    FlagBits(g);
    UpdateTables(data, g, c, value, j);
    if j == And(g.flags, 0x0F) {
      TableWord(data, g, c, value, j, NewWord(WordAt(data, g.EntryAt(j, c)), value));
      TableFits(data, g, j);
    }
  }

  /** The entry of a table into which a word was stored. */
  lemma TableWord(data: seq<Byte>, g: Geometry, c: nat, value: nat, j: nat, word: nat)
    requires OnDisk(data, g) && j < g.fats && g.InFat(c) && word < P32
    requires Table(Updated(data, g, c, value), g, j) == Overwrite(Table(data, g, j), 4 * c, ToLe(word))
    ensures WordAt(Updated(data, g, c, value), g.EntryAt(j, c)) == word
  {
    hide Updated, Overwrite, Table, ToLe, FromLe;
    EntryInTable(Updated(data, g, c, value), g, j, c);
    var t := Table(data, g, j);
    TableSize(data, g, j);
    OverwriteRead(t, 4 * c, ToLe(word));
    LeRoundTrip(word);
  }

  lemma TableSize(data: seq<Byte>, g: Geometry, j: nat)
    requires OnDisk(data, g) && j < g.fats
    ensures |Table(data, g, j)| == g.FatSize()
  {
    TableFits(data, g, j);
  }

  // ----- entries behind the table -----

  /** Outside [lo, hi) nothing has changed. */
  ghost predicate OnlyIn(data: seq<Byte>, data': seq<Byte>, lo: nat, hi: nat) {
    |data'| == |data| && forall k :: 0 <= k < |data| && (k < lo || hi <= k) ==> data'[k] == data[k]
  }

  /** The last table the update writes. */
  function LastWritten(g: Geometry): nat
    requires g.Active() < g.fats
  {
    if g.Mirrored() then g.fats - 1 else g.Active()
  }

  /** Where the tables it writes begin and end. */
  function Low(g: Geometry): nat {
    g.FatStart(g.Active())
  }

  function High(g: Geometry): nat
    requires g.Active() < g.fats
  {
    g.FatStart(LastWritten(g)) + g.FatSize()
  }

  lemma SliceByte(data: seq<Byte>, k: nat)
    requires k < |data|
    ensures Slice(data, k, 1) == [data[k]]
  {
  }

  lemma OverwriteByte(data: seq<Byte>, p: nat, s: seq<Byte>, k: nat)
    requires p + |s| <= |data| && k < |data|
    ensures Overwrite(data, p, s)[k] == if p <= k < p + |s| then s[k - p] else data[k]
  {
  }

  /** With the entry inside the table the update stays inside the tables it is meant for. */
  lemma UpdateStays(data: seq<Byte>, g: Geometry, c: nat, value: nat)
    requires OnDisk(data, g) && g.Active() < g.fats && g.InFat(c)
    ensures OnlyIn(data, Updated(data, g, c, value), Low(g), High(g))
  {
    hide Overwrite, Slice, NewWord, ToLe;
    var after := Updated(data, g, c, value);
    forall k | 0 <= k < |data| && (k < Low(g) || High(g) <= k)
      ensures after[k] == data[k]
    {
      if g.Mirrored() {
        UpdateOutside(data, g, c, value, k, 1);
        SliceByte(data, k);
        SliceByte(after, k);
      } else {
        TableFits(data, g, g.Active());
        var p := g.EntryAt(g.Active(), c);
        OverwriteByte(data, p, ToLe(NewWord(WordAt(data, p), value)), k);
      }
    }
  }

  lemma {:induction false} MirrorLast(data: seq<Byte>, g: Geometry, c: nat, word: seq<Byte>, k: nat)
    requires k < g.fats && |word| == 4 && g.EntryAt(g.fats - 1, c) + 4 <= |data|
    ensures Slice(Mirror(data, g, c, word, k), g.EntryAt(g.fats - 1, c), 4) == word
    decreases g.fats - k
  {
    hide Overwrite, Slice;
    if k == g.fats - 1 {
      OverwriteRead(data, g.EntryAt(k, c), word);
    } else {
      MirrorLast(Overwrite(data, g.EntryAt(k, c), word), g, c, word, k + 1);
    }
  }

  /** The last entry written holds the word. */
  lemma LastEntry(data: seq<Byte>, g: Geometry, c: nat, value: nat)
    requires g.Active() < g.fats && g.EntryAt(LastWritten(g), c) + 4 <= |data|
    ensures Slice(Updated(data, g, c, value), g.EntryAt(LastWritten(g), c), 4)
         == ToLe(NewWord(WordAt(data, g.EntryAt(g.Active(), c)), value))
  {
    hide Overwrite, Slice, NewWord, ToLe;
    var p := g.EntryAt(g.Active(), c);
    var word := ToLe(NewWord(WordAt(data, p), value));
    if g.Mirrored() && g.fats > 1 {
      MirrorLast(Overwrite(data, p, word), g, c, word, 1);
    } else {
      OverwriteRead(data, p, word);
    }
  }

  lemma TopByte(before: nat, value: nat)
    requires before < P32 && (value == 0 || value == 0x0F00_0000)
    ensures ToLe(NewWord(before, value))[3] == before / P28 * 16 + (if value == 0 then 0 else 15)
  {
  }

  /** Of the clusters the code accepts, exactly those with an entry inside the table are updated
      without touching anything but the tables. */
  lemma UpdateConfined(data: seq<Byte>, g: Geometry, c: nat)
    requires OnDisk(data, g) && g.Active() < g.fats && g.EntryAt(LastWritten(g), c) + 4 <= |data|
    ensures (forall value: nat :: OnlyIn(data, Updated(data, g, c, value), Low(g), High(g))) <==> g.InFat(c)
  {
    if g.InFat(c) {
      forall value: nat
        ensures OnlyIn(data, Updated(data, g, c, value), Low(g), High(g))
      {
        UpdateStays(data, g, c, value);
      }
    } else {
      var value := Straying(data, g, c);
    }
  }

  /** A value whose top byte changes the first byte behind the entry's table or a later one. */
  lemma Straying(data: seq<Byte>, g: Geometry, c: nat) returns (value: nat)
    requires g.Active() < g.fats && g.EntryAt(LastWritten(g), c) + 4 <= |data| && !g.InFat(c)
    ensures !OnlyIn(data, Updated(data, g, c, value), Low(g), High(g))
  {
    hide Updated, ToLe, NewWord, WordAt;
    var p := g.EntryAt(LastWritten(g), c);
    var before := WordAt(data, g.EntryAt(g.Active(), c));
    TopByte(before, 0);
    TopByte(before, 0x0F00_0000);
    value := if data[p + 3] == before / P28 * 16 then 0x0F00_0000 else 0;
    LastEntry(data, g, c, value);
    var after := Updated(data, g, c, value);
    assert Slice(after, p, 4)[3] == after[p + 3];
    assert p + 3 >= High(g);
  }
}
