/** The FAT32 allocation table: lookup, update with mirroring, and the search for a free
    cluster, over the byte-granular disk. */
module Fat {
  import opened Machine
  import opened Memory
  import opened D = Disk

  // ----- 32-bit little-endian words -----

  const P28: nat := 0x1000_0000

  function FromLe(b: seq<Byte>): nat
    requires |b| == 4
  {
    b[0] as nat + 256 * (b[1] as nat + 256 * (b[2] as nat + 256 * b[3] as nat))
  }

  lemma LeRoundTrip(v: nat)
    requires v < P32
    ensures FromLe(ToLe(v)) == v
  {
    assert v / 0x1_0000 == v / 256 / 256 && v / 0x100_0000 == v / 256 / 256 / 256;
  }

  lemma FromLeThere(b: seq<Byte>)
    requires |b| == 4
    ensures FromLe(b) < P32 && ToLe(FromLe(b)) == b
  {
    var w1 := b[2] as nat + 256 * b[3] as nat;
    var w2 := b[1] as nat + 256 * w1;
    var v := b[0] as nat + 256 * w2;
    DivUnique(v, 256, w2, b[0] as nat);
    DivUnique(w2, 256, w1, b[1] as nat);
    DivUnique(w1, 256, b[3] as nat, b[2] as nat);
    QuotientChain(v);
  }

  lemma QuotientChain(v: nat)
    ensures v / 0x1_0000 == v / 256 / 256 && v / 0x100_0000 == v / 256 / 256 / 256
  {
  }

  lemma FromLeBound(b: seq<Byte>)
    requires |b| == 4
    ensures FromLe(b) < P32
  {
  }

  /** The word at a byte position, 0 where there is none. */
  function WordAt(data: seq<Byte>, p: nat): (v: nat)
    ensures v < P32
  {
    if p + 4 <= |data| then FromLeBound(Slice(data, p, 4)); FromLe(Slice(data, p, 4)) else 0
  }

  // ----- the volume -----

  /** What the file system keeps of the partition entry and the BIOS parameter block. */
  datatype Geometry = Geometry(startLba: nat, reserved: nat, fats: nat, sectorsPerFat: nat, flags: nat,
                               sectorSize: nat, sectorsPerCluster: nat, dataStart: nat, maxCluster: nat) {
    /** `flags & 0x80` */
    predicate Mirrored() {
      flags / 128 % 2 == 0
    }

    /** `flags & 0x0F` when mirroring is off */
    function Active(): nat {
      if Mirrored() then 0 else flags % 16
    }

    /** Bytes in one FAT. */
    function FatSize(): nat {
      Base(sectorsPerFat, sectorSize)
    }

    /** Byte position of a FAT. */
    function FatStart(index: nat): nat {
      if index == 0 then Base(startLba + reserved, sectorSize) else FatStart(index - 1) + FatSize()
    }

    /** Byte position of the entry of a cluster. */
    function EntryAt(index: nat, cluster: nat): nat {
      FatStart(index) + 4 * cluster
    }

    /** The entry of a cluster lies inside the table. */
    predicate InFat(cluster: nat) {
      4 * cluster + 4 <= FatSize()
    }

    /** First sector of a FAT, as the code computes it. */
    function FatLba(index: nat): nat {
      startLba + reserved + Base(index, sectorsPerFat)
    }
  }

  lemma {:induction false} FatLbaIs(g: Geometry, index: nat)
    ensures Base(g.FatLba(index), g.sectorSize) == g.FatStart(index)
  {
    if index > 0 {
      FatLbaIs(g, index - 1);
      NextProduct(index - 1, g.sectorsPerFat);
      SumProduct(g.FatLba(index - 1), g.sectorsPerFat, g.sectorSize);
    }
  }

  lemma SumProduct(a: nat, b: nat, s: nat)
    ensures Base(a + b, s) == Base(a, s) + Base(b, s)
  {
  }

  lemma {:induction false} FatsApart(g: Geometry, i: nat, j: nat)
    requires i < j
    ensures g.FatStart(i) + g.FatSize() <= g.FatStart(j)
    decreases j
  {
    if i < j - 1 {
      FatsApart(g, i, j - 1);
    }
  }

  // ----- lookup -----

  /** What a 28-bit entry says: 0 for the end of a chain, None for no usable successor. */
  function NextOf(value: nat, maxCluster: nat): Option<nat> {
    if value >= 0x0FFF_FFF8 then Some(0)
    else if value < 2 || value >= 0x0FFF_FFF0 || value > maxCluster then None
    else Some(value)
  }

  /** The successor of a cluster in the active table. */
  function Successor(data: seq<Byte>, g: Geometry, cluster: nat): Option<nat> {
    if g.sectorSize == 0 || cluster < 2 || cluster > g.maxCluster || g.Active() >= g.fats
       || g.EntryAt(g.Active(), cluster) + 4 > |data|
    then None
    else NextOf(WordAt(data, g.EntryAt(g.Active(), cluster)) % P28, g.maxCluster)
  }

  /** The word that set_next_cluster stores: 28 new bits under the 4 old ones. */
  function NewWord(before: nat, value: nat): (v: nat)
    requires before < P32
    ensures v < P32 && v % P28 == value % P28 && v / P28 == before / P28
  {
    before / P28 * P28 + value % P28
  }

  /** The same four bytes go to every table from `index` on. */
  function Mirror(data: seq<Byte>, g: Geometry, cluster: nat, bytes: seq<Byte>, index: nat): (r: seq<Byte>)
    ensures |r| == |data|
    decreases g.fats - index
  {
    if index >= g.fats then data
    else Mirror(Overwrite(data, g.EntryAt(index, cluster), bytes), g, cluster, bytes, index + 1)
  }

  /** The disk after a successful set_next_cluster. */
  function Updated(data: seq<Byte>, g: Geometry, cluster: nat, value: nat): (r: seq<Byte>)
    ensures |r| == |data|
  {
    var p := g.EntryAt(g.Active(), cluster);
    var bytes := ToLe(NewWord(WordAt(data, p), value));
    var first := Overwrite(data, p, bytes);
    if g.Mirrored() then Mirror(first, g, cluster, bytes, 1) else first
  }

  class FileSystem {
    const disk: Disk
    const g: Geometry

    /** The volume's sectors are the device's, and its tables lie on the device. */
    ghost predicate Valid()
      reads this, disk
    {
      && disk.Valid() && disk.sectorSize == g.sectorSize
      && (g.sectorSize > 0 ==> g.FatStart(g.fats) <= |disk.data|)
    }

    constructor (disk: Disk, g: Geometry)
      requires disk.Valid() && disk.sectorSize == g.sectorSize
      requires g.sectorSize > 0 ==> g.FatStart(g.fats) <= |disk.data|
      ensures Valid() && this.disk == disk && this.g == g
    {
      this.disk := disk;
      this.g := g;
    }

    /** Sector and offset of an entry name its byte position. */
    lemma EntrySector(index: nat, cluster: nat)
      requires g.sectorSize > 0
      ensures 4 * cluster / g.sectorSize >= 0 && 0 <= 4 * cluster % g.sectorSize
      ensures Base(g.FatLba(index) + 4 * cluster / g.sectorSize, g.sectorSize) + 4 * cluster % g.sectorSize
           == g.EntryAt(index, cluster)
    {
      SplitPosition(g.FatLba(index), 4 * cluster, g.sectorSize);
      FatLbaIs(g, index);
    }

    /** The four-byte read that lookup and update share. */
    method ReadEntry(index: nat, cluster: nat) returns (ok: bool, word: nat)
      requires Valid() && g.sectorSize > 0
      ensures ok ==> g.EntryAt(index, cluster) + 4 <= |disk.data| && word == WordAt(disk.data, g.EntryAt(index, cluster))
      ensures disk.reliable && g.EntryAt(index, cluster) + 4 <= |disk.data| ==> ok
      ensures word < P32
    {
      hide Base, Slice, Overwrite;
      EntrySector(index, cluster);
      var bytes := new Byte[4];
      ghost var bytes0 := bytes[..];
      var read, _ := disk.ReadBytes(g.FatLba(index) + 4 * cluster / g.sectorSize, 4 * cluster % g.sectorSize, 4, bytes, 0);
      if !read {
        return false, 0;
      }
      OverwriteAll(bytes0, Slice(disk.data, g.EntryAt(index, cluster), 4));
      FromLeBound(bytes[..]);
      return true, FromLe(bytes[..]);
    }

    /** The four-byte write, to the active table and to the backups. */
    method WriteEntry(index: nat, cluster: nat, word: seq<Byte>) returns (ok: bool)
      requires Valid() && g.sectorSize > 0 && |word| == 4
      modifies disk
      ensures Valid()
      ensures ok ==> g.EntryAt(index, cluster) + 4 <= |disk.data|
                     && disk.data == Overwrite(old(disk.data), g.EntryAt(index, cluster), word)
      ensures disk.reliable && g.EntryAt(index, cluster) + 4 <= |disk.data| ==> ok
    {
      hide Base, Slice, Overwrite;
      EntrySector(index, cluster);
      var bytes := new Byte[4] [word[0], word[1], word[2], word[3]];
      assert bytes[..] == word;
      SliceAll(word);
      var written, _ := disk.WriteBytes(g.FatLba(index) + 4 * cluster / g.sectorSize, 4 * cluster % g.sectorSize, 4, bytes, 0);
      ok := written;
    }

    method GetNextCluster(cluster: nat) returns (ok: bool, next: nat)
      requires Valid()
      ensures ok ==> Successor(disk.data, g, cluster) == Some(next)
      ensures disk.reliable ==> ok == Successor(disk.data, g, cluster).Some?
    {
      if g.sectorSize == 0 || cluster < 2 || cluster > g.maxCluster {
        return false, 0;
      }
      var active := g.Active();
      if active >= g.fats {
        return false, 0;
      }
      var read, word := ReadEntry(active, cluster);
      if !read {
        return false, 0;
      }
      var value := word % P28;
      if value >= 0x0FFF_FFF8 {
        return true, 0;
      }
      if value < 2 || value >= 0x0FFF_FFF0 || value > g.maxCluster {
        return false, 0;
      }
      return true, value;
    }

    method SetNextCluster(cluster: nat, value: nat) returns (ok: bool)
      requires Valid() && value < P32
      modifies disk
      ensures Valid()
      ensures ok ==> disk.data == Updated(old(disk.data), g, cluster, value)
      ensures disk.reliable ==> (ok <==> Writable(old(disk.data), cluster))
    {
      hide NewWord, ToLe, Overwrite;
      if g.sectorSize == 0 || g.fats == 0 || g.sectorsPerFat == 0 || cluster < 2 || cluster > g.maxCluster {
        return false;
      }
      var active := g.Active();
      if active >= g.fats {
        return false;
      }
      if g.Mirrored() && g.fats > 1 {
        FatsApart(g, 0, g.fats - 1);
      }
      var read, before := ReadEntry(active, cluster);
      if !read {
        return false;
      }
      var word := ToLe(NewWord(before, value));
      var written := WriteEntry(active, cluster, word);
      if !written {
        return false;
      }
      ok := true;
      if g.Mirrored() {
        ok := WriteBackups(cluster, word);
      }
    }

    /** The loop over the backup tables goes on after a failed write. */
    method WriteBackups(cluster: nat, word: seq<Byte>) returns (ok: bool)
      requires Valid() && g.sectorSize > 0 && |word| == 4 && g.fats > 0
      modifies disk
      ensures Valid()
      ensures ok ==> disk.data == Mirror(old(disk.data), g, cluster, word, 1)
      ensures ok && g.fats > 1 ==> g.EntryAt(g.fats - 1, cluster) + 4 <= |disk.data|
      ensures disk.reliable && g.EntryAt(g.fats - 1, cluster) + 4 <= |old(disk.data)| ==> ok
    {
      hide Base, Slice, Overwrite;
      ok := true;
      ghost var target := Mirror(disk.data, g, cluster, word, 1);
      for i := 1 to g.fats
        invariant Valid()
        invariant ok ==> Mirror(disk.data, g, cluster, word, i) == target
        invariant ok && i > 1 ==> g.EntryAt(i - 1, cluster) + 4 <= |disk.data|
        invariant disk.reliable && g.EntryAt(g.fats - 1, cluster) + 4 <= |old(disk.data)| ==> ok
      {
        if i < g.fats - 1 {
          FatsApart(g, i, g.fats - 1);
        }
        var written := WriteEntry(i, cluster, word);
        if !written {
          ok := false;
        }
      }
    }

    /** The 28-bit entry of a cluster in the active table is zero. */
    ghost predicate FreeEntry(c: nat)
      reads disk
    {
      WordAt(disk.data, g.EntryAt(g.Active(), c)) % P28 == 0
    }

    /** The least free cluster below max_cluster (which the search itself leaves out), or
        failure exactly when there is none on a reliable device. */
    method FindFreeCluster() returns (ok: bool, cluster: nat)
      requires Valid() && g.sectorSize % 4 == 0 && Base(g.sectorsPerFat, g.sectorSize / 4) <= P32
      ensures ok ==> 2 <= cluster < g.maxCluster && g.Active() < g.fats && g.InFat(cluster) && FreeEntry(cluster)
      ensures ok ==> forall c :: 2 <= c < cluster ==> !FreeEntry(c)
      ensures disk.reliable && g.sectorSize > 0 && g.Active() < g.fats && !ok ==>
        forall c :: 2 <= c < g.maxCluster && g.InFat(c) ==> !FreeEntry(c)
    {
      hide Base, Slice, Overwrite, WordAt;
      cluster := 0;
      if g.sectorSize == 0 {
        return false, 0;
      }
      var active := g.Active();
      if active >= g.fats {
        return false, 0;
      }
      var per := g.sectorSize / 4;
      var sector := new Byte[g.sectorSize];
      FatsApart(g, active, g.fats);
      FourTimes(g.sectorsPerFat, per);
      BaseOfZero(per);
      ghost var before := 0;
      for sectorIndex := 0 to g.sectorsPerFat
        invariant before == Base(sectorIndex, per)
        invariant forall c :: 2 <= c < before ==> !FreeEntry(c)
      {
        SectorOfTable(active, sectorIndex, per);
        var read := disk.ReadSector(g.FatLba(active) + sectorIndex, sector);
        if !read {
          return false, 0;
        }
        NextProduct(sectorIndex, per);
        for i := 0 to per
          invariant before == Base(sectorIndex, per)
          invariant sector[..] == Slice(disk.data, Base(g.FatLba(active) + sectorIndex, g.sectorSize), g.sectorSize)
          invariant forall c :: 2 <= c < before + i ==> !FreeEntry(c)
        {
          var clusterIndex := Base(sectorIndex, per) + i;
          if clusterIndex < 2 {
            continue;
          }
          if clusterIndex >= g.maxCluster {
            return false, 0;
          }
          EntryInSector(sector[..], active, sectorIndex, per, i);
          var value := WordAt(sector[..], 4 * i) % P28;
          if value == 0 {
            return true, clusterIndex;
          }
        }
        before := before + per;
      }
      return false, 0;
    }

    /** A sector of a table lies on the disk, at the place of its entries. */
    lemma SectorOfTable(active: nat, sectorIndex: nat, per: nat)
      requires Valid() && g.sectorSize == 4 * per && active < g.fats && sectorIndex < g.sectorsPerFat
      requires g.sectorSize > 0
      ensures g.FatLba(active) + sectorIndex < disk.sectorCount
      ensures Base(g.FatLba(active) + sectorIndex, g.sectorSize) == g.FatStart(active) + 4 * Base(sectorIndex, per)
      ensures Base(sectorIndex, per) + per <= Base(g.sectorsPerFat, per)
    {
      hide Base;
      FatLbaIs(g, active);
      SumProduct(g.FatLba(active), sectorIndex, g.sectorSize);
      FourTimes(sectorIndex, per);
      FourTimes(g.sectorsPerFat, per);
      NextProduct(sectorIndex, per);
      Monotone(sectorIndex + 1, g.sectorsPerFat, per);
      FatsApart(g, active, g.fats);
      LessProduct(g.FatLba(active) + sectorIndex, disk.sectorCount, g.sectorSize);
    }

    lemma EntryInSector(sector: seq<Byte>, active: nat, sectorIndex: nat, per: nat, i: nat)
      requires Valid() && g.sectorSize == 4 * per && active < g.fats && sectorIndex < g.sectorsPerFat && i < per
      requires sector == Slice(disk.data, Base(g.FatLba(active) + sectorIndex, g.sectorSize), g.sectorSize)
      ensures WordAt(sector, 4 * i) == WordAt(disk.data, g.EntryAt(active, Base(sectorIndex, per) + i))
      ensures Base(sectorIndex, per) + i < Base(g.sectorsPerFat, per)
    {
      hide Base, Slice;
      SectorOfTable(active, sectorIndex, per);
      SectorFits(g.FatLba(active) + sectorIndex, disk.sectorCount, g.sectorSize);
      SliceSlice(disk.data, Base(g.FatLba(active) + sectorIndex, g.sectorSize), g.sectorSize, 4 * i, 4);
    }

    /** The arguments pass the checks of set_next_cluster and every entry to write is on the disk. */
    ghost predicate Writable(data: seq<Byte>, cluster: nat) {
      && g.sectorSize > 0 && g.sectorsPerFat > 0 && 2 <= cluster <= g.maxCluster && g.Active() < g.fats
      && g.EntryAt(if g.Mirrored() then g.fats - 1 else g.Active(), cluster) + 4 <= |data|
    }
  }

  lemma FourTimes(a: nat, s: nat)
    ensures Base(a, 4 * s) == 4 * Base(a, s)
  {
  }

  lemma BaseOfZero(s: nat)
    ensures Base(0, s) == 0
  {
  }
}
