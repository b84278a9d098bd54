/** Reading, writing and seeking in a FAT32 file. */
module File {
  import opened Machine
  import opened Memory
  import opened Fat
  import opened Chain
  import opened D = Disk

  const ENTRY_SIZE: nat := 32

  datatype SeekMode = SeekSet | SeekCur | SeekEnd

  class File {
    const fs: FileSystem
    const firstCluster: nat
    const clusterSize: nat
    /** Place of the 32-byte directory entry, and its first 28 bytes: names, times, attributes
        and the number of the first cluster. */
    const dirLba: nat
    const dirOffset: nat
    const entryHead: seq<Byte>
    var position: nat
    /** The entry's 32-bit file_size. */
    var fileSize: nat

    ghost predicate Valid()
      reads this, fs, fs.disk
    {
      && fs.Valid() && fs.disk.Valid()
      && clusterSize == ClusterSize(fs.g)
      && |entryHead| == ENTRY_SIZE - 4 && fileSize < P32
    }

    ghost function DirPos(): nat {
      Base(dirLba, fs.g.sectorSize) + dirOffset
    }

    /** The chain is the whole of this file's clusters, and the directory entry lies outside
        it, behind the tables and on the disk. */
    ghost predicate Owns(chain: seq<nat>)
      reads this, fs, fs.disk
    {
      && clusterSize > 0
      && |chain| > 0 && IsChain(fs.disk.data, fs.g, chain) && Ends(fs.disk.data, fs.g, chain)
      && chain[0] == firstCluster && fs.g.dataStart >= 2
      && Apart(fs.g, chain, DirPos(), ENTRY_SIZE) && fs.g.FatStart(fs.g.fats) <= DirPos()
      && DirPos() + ENTRY_SIZE <= |fs.disk.data|
    }

    /** The bytes of all clusters of the file. */
    ghost function Bytes(chain: seq<nat>): seq<Byte>
      reads fs.disk
    {
      Content(fs.disk.data, fs.g, chain)
    }

    /** The constructor takes the directory entry as it was read: the first cluster's number is
        in bytes 26, 27 and 20, 21, the size in the last four. */
    constructor (fs: FileSystem, entry: seq<Byte>, dirLba: nat, dirOffset: nat)
      requires fs.Valid() && |entry| == 32
      ensures Valid() && position == 0 && this.fs == fs && this.dirLba == dirLba && this.dirOffset == dirOffset
      ensures entryHead == entry[..28] && fileSize == FromLe(entry[28..32]) && Entry() == entry
      ensures firstCluster == FromLe([entry[26], entry[27], entry[20], entry[21]])
    {
      this.fs := fs;
      firstCluster := HalfWord(entry, 26) + HalfWord(entry, 20) * 0x1_0000;
      clusterSize := ClusterSize(fs.g);
      this.dirLba := dirLba;
      this.dirOffset := dirOffset;
      entryHead := entry[..ENTRY_SIZE - 4];
      fileSize := FromLe(entry[ENTRY_SIZE - 4..]);
      position := 0;
      FromLeBound(entry[ENTRY_SIZE - 4..]);
      FromLeThere(entry[ENTRY_SIZE - 4..]);
      new;
      assert entryHead + entry[ENTRY_SIZE - 4..] == entry;
    }

    /** The loop that follows the chain to the cluster of the position. It ends on every
        table, cyclic or not. */
    method Walk(index: nat, ghost chain: seq<nat>) returns (ok: bool, cluster: nat)
      requires Valid()
      ensures ok && Owns(chain) ==> index < |chain| && cluster == chain[index]
      ensures fs.disk.reliable && Owns(chain) ==> (ok <==> index < |chain|)
    {
      hide IsChain, Apart, Successor;
      cluster := firstCluster;
      for i := 0 to index
        invariant Owns(chain) ==> i < |chain| && cluster == chain[i]
      {
        if Owns(chain) {
          NextInChain(fs.disk.data, fs.g, chain, i);
        }
        var found, next := fs.GetNextCluster(cluster);
        if !found || next == 0 {
          return false, 0;
        }
        cluster := next;
      }
      ok := true;
      if Owns(chain) {
        NextInChain(fs.disk.data, fs.g, chain, 0);
      }
    }

    /** The bytes written so far are in the content, and nothing else has changed. */
    ghost predicate WriteState(chain: seq<nat>, data0: seq<Byte>, pos0: nat, src: seq<Byte>, done: nat)
      reads this, fs, fs.disk
    {
      && Owns(chain)
      && Bytes(chain) == Overwrite(Content(data0, fs.g, chain), pos0, Slice(src, 0, done))
      && Untouched(data0, fs.disk.data, fs.g, chain)
      && done <= |src|
      && (done > 0 ==> pos0 + done <= |Bytes(chain)|)
    }

    /** One write_bytes call of `write`: a chunk inside one cluster. */
    method WritePiece(cluster: nat, offset: nat, chunk: nat, buffer: array<Byte>, written: nat, ghost chain: seq<nat>,
                      ghost k: nat, ghost data0: seq<Byte>, ghost pos0: nat, ghost good: bool)
      returns (ok: bool, ghost done: nat)
      requires Valid() && offset + chunk <= clusterSize && written + chunk <= buffer.Length
      requires good ==>
        && WriteState(chain, data0, pos0, buffer[..], written)
        && k < |chain| && cluster == chain[k] && Base(k, clusterSize) + offset == pos0 + written
      modifies fs.disk
      ensures Valid() && done <= chunk && (ok ==> done == chunk)
      ensures good ==>
        WriteState(chain, data0, pos0, buffer[..], written + done)
        && pos0 + written + done <= |Bytes(chain)|
        && (fs.disk.reliable ==> ok)
    {
      hide IsChain, Apart, Untouched, Base, Overwrite, Slice, Content, ClusterSize;
      ghost var src := buffer[..];
      ghost var data1 := fs.disk.data;
      if good {
        NextInChain(data1, fs.g, chain, k);
      }
      ok, done := fs.disk.WriteBytes(ClusterLba(fs.g, cluster), offset, chunk, buffer, written);
      if good {
        WriteStep(chain, data0, data1, fs.disk.data, pos0, src, written, done, k, offset);
      }
    }

    lemma WriteStep(chain: seq<nat>, data0: seq<Byte>, data1: seq<Byte>, data2: seq<Byte>, pos0: nat, src: seq<Byte>,
                    written: nat, done: nat, k: nat, offset: nat)
      requires IsChain(data1, fs.g, chain) && Ends(data1, fs.g, chain) && k < |chain|
      requires Content(data1, fs.g, chain) == Overwrite(Content(data0, fs.g, chain), pos0, Slice(src, 0, written))
      requires Untouched(data0, data1, fs.g, chain)
      requires written + done <= |src| && offset + done <= ClusterSize(fs.g)
      requires Base(k, ClusterSize(fs.g)) + offset == pos0 + written
      requires data2 == Overwrite(data1, ClusterStart(fs.g, chain[k]) + offset, Slice(src, written, done))
      ensures IsChain(data2, fs.g, chain) && Ends(data2, fs.g, chain)
      ensures Content(data2, fs.g, chain) == Overwrite(Content(data0, fs.g, chain), pos0, Slice(src, 0, written + done))
      ensures Untouched(data0, data2, fs.g, chain)
      ensures pos0 + written + done <= |Content(data2, fs.g, chain)|
    {
      hide IsChain, Ends, Untouched, Base, Overwrite, Slice, Content, ClusterSize, ClusterStart;
      var piece := Slice(src, written, done);
      WriteInChain(data1, fs.g, chain, k, offset, piece);
      UntouchedStep(data0, data1, data2, fs.g, chain);
      SliceAppend(src, 0, written, done);
      OverwriteAppend(Content(data0, fs.g, chain), pos0, Slice(src, 0, written), piece);
    }

    /** The entry on the disk is this file's, but perhaps for the size. */
    ghost predicate HoldsHead(data: seq<Byte>) {
      Slice(data, DirPos(), ENTRY_SIZE - 4) == entryHead
    }

    /** Where an update may begin to change the disk: at the size, when the rest is there. */
    ghost function Changing(data: seq<Byte>): nat {
      if HoldsHead(data) then DirPos() + (ENTRY_SIZE - 4) else DirPos()
    }

    /** Only the chain's clusters and the directory entry may have changed; of an entry that was
        there only the last four bytes. */
    ghost predicate Kept(data0: seq<Byte>, data1: seq<Byte>, chain: seq<nat>) {
      && |data1| == |data0|
      && (forall a: nat, n: nat :: Apart(fs.g, chain, a, n) && (a + n <= Changing(data0) || DirPos() + ENTRY_SIZE <= a) ==>
            Slice(data1, a, n) == Slice(data0, a, n))
    }

    /** The bytes of the directory entry that belong to this file. */
    ghost function Entry(): seq<Byte>
      requires fileSize < P32
      reads this
    {
      entryHead + ToLe(fileSize)
    }

    /** So all tables are as before, and so is every cluster of another file that the
        directory entry is not in. */
    lemma KeptSpares(data0: seq<Byte>, data1: seq<Byte>, chain: seq<nat>, d: nat)
      requires IsChain(data0, fs.g, chain) && Kept(data0, data1, chain) && fs.g.FatStart(fs.g.fats) <= DirPos()
      requires d >= 2 && d !in chain
      ensures SameTables(data0, data1, fs.g)
      ensures var p, n := ClusterStart(fs.g, d), ClusterSize(fs.g);
              p + n <= DirPos() || DirPos() + ENTRY_SIZE <= p ==> Slice(data1, p, n) == Slice(data0, p, n)
    {
      hide Slice, Base, ClusterSize, ClusterStart;
      TablesApart(fs.g, chain, |data0|);
      OthersApart(fs.g, chain, |data0|, d);
    }

    /** update_file_entry */
    method UpdateEntry(ghost chain: seq<nat>) returns (ok: bool)
      requires Valid()
      modifies fs.disk
      ensures Valid()
      ensures old(Owns(chain)) ==>
        Owns(chain) && Bytes(chain) == old(Bytes(chain)) && Kept(old(fs.disk.data), fs.disk.data, chain)
      ensures fs.disk.reliable && old(Owns(chain)) ==> ok
      ensures ok && old(Owns(chain)) ==> Slice(fs.disk.data, DirPos(), 32) == Entry()
      ensures ok && old(Owns(chain)) ==> WordAt(fs.disk.data, DirPos() + 28) == fileSize
    {
      hide IsChain, Ends, Apart, Base, Overwrite, Slice, Content, ClusterSize, ToLe, WordAt;
      var entry := entryHead + ToLe(fileSize);
      var bytes := new Byte[ENTRY_SIZE](i requires 0 <= i < ENTRY_SIZE => entry[i]);
      assert bytes[..] == entry && entry[..ENTRY_SIZE - 4] == entryHead;
      ghost var good := Owns(chain);
      ghost var data0 := fs.disk.data;
      ghost var done;
      ok, done := fs.disk.WriteBytes(dirLba, dirOffset, ENTRY_SIZE, bytes, 0);
      if good {
        EntryWritten(data0, fs.disk.data, chain, entry, done);
        if ok {
          EntryRead(data0, DirPos(), entryHead, fileSize);
        }
      }
    }

    lemma EntryWritten(data0: seq<Byte>, data1: seq<Byte>, chain: seq<nat>, entry: seq<Byte>, done: nat)
      requires IsChain(data0, fs.g, chain) && Ends(data0, fs.g, chain) && |entryHead| == ENTRY_SIZE - 4
      requires Apart(fs.g, chain, DirPos(), ENTRY_SIZE) && fs.g.FatStart(fs.g.fats) <= DirPos()
      requires DirPos() + ENTRY_SIZE <= |data0| && |entry| == ENTRY_SIZE && done <= ENTRY_SIZE
      requires entry[..ENTRY_SIZE - 4] == entryHead
      requires data1 == Overwrite(data0, DirPos(), Slice(entry, 0, done))
      ensures IsChain(data1, fs.g, chain) && Ends(data1, fs.g, chain)
      ensures Content(data1, fs.g, chain) == Content(data0, fs.g, chain)
      ensures Kept(data0, data1, chain)
    {
      hide IsChain, Ends, Base, Overwrite, Slice, Content, ClusterSize, ClusterStart;
      var s := Slice(entry, 0, done);
      WriteOutsideChain(data0, fs.g, chain, DirPos(), s);
      var p, tail := DirPos(), s;
      if HoldsHead(data0) {
        p := DirPos() + (ENTRY_SIZE - 4);
        tail := HeadThere(data0, DirPos(), entryHead, entry, done);
      }
      forall a: nat, n: nat | Apart(fs.g, chain, a, n) && (a + n <= Changing(data0) || DirPos() + ENTRY_SIZE <= a)
        ensures Slice(data1, a, n) == Slice(data0, a, n)
      {
        OverwriteOther(data0, p, tail, a, n);
      }
    }

    /** write(buffer, size): `done` bytes reached the disk. */
    method Write(buffer: array<Byte>, size: nat, ghost chain: seq<nat>) returns (result: int, ghost done: nat)
      requires Valid() && size <= buffer.Length && clusterSize > 0
      modifies this`position, this`fileSize, fs.disk
      ensures Valid()
      ensures done <= size && (result == -1 || 0 <= result <= done)
      ensures position == old(position) + if result > 0 then result else 0
      ensures fileSize == if 0 < size == result && position > old(fileSize) then position % P32 else old(fileSize)
      ensures old(Owns(chain)) ==>
        && Owns(chain)
        && Bytes(chain) == Overwrite(old(Bytes(chain)), old(position), Slice(buffer[..], 0, done))
        && (done > 0 ==> old(position) + done <= |Bytes(chain)|)
        && Kept(old(fs.disk.data), fs.disk.data, chain)
        && (fs.disk.reliable ==>
              result == if size == 0 || old(position) + size <= |old(Bytes(chain))| then size else -1)
        && (fs.disk.reliable && 0 < size == result && position > old(fileSize) ==>
              Slice(fs.disk.data, DirPos(), 32) == Entry() && WordAt(fs.disk.data, DirPos() + 28) == fileSize)
    {
      hide IsChain, Ends, Apart, Base, Overwrite, Slice, Content, ClusterSize, WordAt, Kept, Untouched;
      ghost var good := Owns(chain);
      ghost var data0, pos0, src := fs.disk.data, position, buffer[..];
      done := 0;
      if good {
        StartWrite(data0, fs.g, chain, pos0, src);
        UntouchedKept(data0, data0, chain);
      }
      if size == 0 {
        return 0, 0;
      }
      SplitPosition(0, position, clusterSize);
      BaseOfZero(clusterSize);
      var walked, cluster := Walk(position / clusterSize, chain);
      if good {
        ContentBound(data0, fs.g, chain, position / clusterSize);
      }
      if !walked {
        return -1, 0;
      }
      result, done := CopyIn(cluster, size, buffer, chain, position / clusterSize, good);
      if good {
        UntouchedKept(data0, fs.disk.data, chain);
      }
      // early returns give less than size
      if result == size && position > fileSize {
        ghost var data1 := fs.disk.data;
        fileSize := position % P32;
        var _ := UpdateEntry(chain);
        if good {
          KeptTwice(data0, data1, fs.disk.data, chain);
        }
      }
    }

    /** The second loop of `write`, from the cluster of the position on. */
    method CopyIn(first: nat, size: nat, buffer: array<Byte>, ghost chain: seq<nat>, ghost index: nat, ghost good: bool)
      returns (result: int, ghost done: nat)
      requires Valid() && 0 < size <= buffer.Length && clusterSize > 0
      requires good ==> Owns(chain) && index < |chain| && first == chain[index]
                        && Base(index, clusterSize) + position % clusterSize == position
      modifies this`position, fs.disk
      ensures Valid()
      ensures done <= size && (result == -1 || 0 <= result <= done)
      ensures position == old(position) + if result > 0 then result else 0
      ensures good ==>
        && WriteState(chain, old(fs.disk.data), old(position), buffer[..], done)
        && (fs.disk.reliable ==>
              result == if old(position) + size <= |old(Bytes(chain))| then size else -1)
    {
      hide IsChain, Ends, Apart, Base, Overwrite, Slice, Content, ClusterSize, Untouched;
      ghost var data0, pos0, src := fs.disk.data, position, buffer[..];
      if good {
        StartWrite(data0, fs.g, chain, pos0, src);
      }
      SplitPosition(0, position, clusterSize);
      done := 0;
      var cluster := first;
      ghost var k: nat := index;
      var written: nat := 0;
      var offset: nat := position % clusterSize;
      while written < size
        invariant Valid() && done == written <= size && offset < clusterSize && buffer[..] == src
        invariant position == pos0
        invariant good ==> WriteState(chain, data0, pos0, src, written)
        invariant good && written < size ==>
          k < |chain| && cluster == chain[k] && Base(k, clusterSize) + offset == pos0 + written
        invariant good && fs.disk.reliable && written == size ==> pos0 + size <= |Content(data0, fs.g, chain)|
      {
        var available := clusterSize - offset;
        var chunk: nat := if size - written < available then size - written else available;
        var ok, piece := WritePiece(cluster, offset, chunk, buffer, written, chain, k, data0, pos0, good);
        if !ok {
          position := position + written;
          return if written > 0 then written else -1, written + piece;
        }
        NextProduct(k, clusterSize);
        written := written + chunk;
        done := written;
        offset := 0;
        if written < size {
          if good {
            NextInChain(fs.disk.data, fs.g, chain, k);
            ContentBound(data0, fs.g, chain, k + 1);
          }
          var found, next := fs.GetNextCluster(cluster);
          if !found {
            position := position + written;
            return written, done;
          }
          if next == 0 {
            return -1, done;
          }
          cluster := next;
          k := k + 1;
        }
      }
      position := position + written;
      return size, done;
    }

    lemma UntouchedKept(data0: seq<Byte>, data1: seq<Byte>, chain: seq<nat>)
      requires Untouched(data0, data1, fs.g, chain)
      ensures Kept(data0, data1, chain)
    {
      hide Slice, Apart;
    }

    lemma KeptTwice(data0: seq<Byte>, data1: seq<Byte>, data2: seq<Byte>, chain: seq<nat>)
      requires Kept(data0, data1, chain) && Kept(data1, data2, chain) && Apart(fs.g, chain, DirPos(), ENTRY_SIZE)
      ensures Kept(data0, data2, chain)
    {
      hide Slice, DirPos, ClusterStart, ClusterSize;
      assert Apart(fs.g, chain, DirPos(), ENTRY_SIZE - 4);
      hide Apart;
      assert HoldsHead(data0) ==> HoldsHead(data1);
    }

    /** One round of `read`: the whole cluster is fetched, the wanted part is kept. */
    method ReadPiece(cluster: nat, offset: nat, chunk: nat, temp: array<Byte>, buffer: array<Byte>, to: nat,
                     ghost chain: seq<nat>, ghost k: nat, ghost good: bool)
      returns (ok: bool)
      requires Valid() && temp != buffer && temp.Length == clusterSize
      requires offset + chunk <= clusterSize && to + chunk <= buffer.Length
      requires good ==> Owns(chain) && k < |chain| && cluster == chain[k]
      modifies buffer, temp
      ensures !ok ==> buffer[..] == old(buffer[..])
      ensures good ==>
        && (ok ==> buffer[..] == Overwrite(old(buffer[..]), to, Slice(Bytes(chain), Base(k, clusterSize) + offset, chunk)))
        && Base(k, clusterSize) + offset + chunk <= |Bytes(chain)|
        && (fs.disk.reliable ==> ok)
    {
      hide IsChain, Ends, Apart, Base, Overwrite, Slice, Content, ClusterSize;
      if good {
        NextInChain(fs.disk.data, fs.g, chain, k);
        ContentPiece(fs.disk.data, fs.g, chain, k, offset, chunk);
      }
      ghost var temp0 := temp[..];
      ghost var done;
      ok, done := fs.disk.ReadBytes(ClusterLba(fs.g, cluster), 0, clusterSize, temp, 0);
      if ok {
        if good {
          OverwriteAll(temp0, Slice(fs.disk.data, ClusterStart(fs.g, cluster), clusterSize));
        }
        Memmove(buffer, to, temp, offset, chunk);
      }
    }

    /** How many bytes a read of `size` bytes should give. */
    function Available(size: nat): nat
      reads this
    {
      if position >= fileSize then 0
      else if size < fileSize - position then size else fileSize - position
    }

    /** The bytes from the position to the end of the file, or the part asked for. */
    lemma AvailableIs(size: nat)
      ensures Available(size) <= size && (position < fileSize ==> position + Available(size) <= fileSize)
      ensures Available(size) == size || position + Available(size) == fileSize || (fileSize <= position && Available(size) == 0)
      ensures fileSize <= position ==> Available(size) == 0
    {
    }

    /** read(buffer, size). It ends on every table, cyclic or not. */
    method Read(buffer: array<Byte>, size: nat, ghost chain: seq<nat>) returns (result: int, ghost done: nat)
      requires Valid() && size <= buffer.Length
      modifies this`position, buffer
      ensures Valid()
      ensures done <= old(Available(size)) && (result == -1 || result == done)
      ensures position == old(position) + if result > 0 then result else 0
      ensures Owns(chain) ==>
        && buffer[..] == Overwrite(old(buffer[..]), 0, Slice(Bytes(chain), old(position), done))
        && (done > 0 ==> old(position) + done <= |Bytes(chain)|)
        && (fs.disk.reliable && (old(Available(size)) == 0 || old(position) + old(Available(size)) <= |Bytes(chain)|) ==>
              result == old(Available(size)))
    {
      hide IsChain, Ends, Apart, Base, Overwrite, Slice, Content, ClusterSize, ClusterLba, Successor, UsableCluster;
      ghost var good := Owns(chain);
      ghost var pos0, buffer0, bytes := position, buffer[..], Bytes(chain);
      done := 0;
      OverwriteNothing(bytes, pos0);
      OverwriteNothing(buffer0, 0);
      if good {
        FirstLba(fs.disk.data, fs.g, chain);
      }
      if clusterSize == 0 || ClusterLba(fs.g, firstCluster) < 2 {
        return -1, 0;
      }
      if size == 0 || position >= fileSize {
        return 0, 0;
      }
      var remaining := fileSize - position;
      var wanted: nat := if size < remaining then size else remaining;
      SplitPosition(0, position, clusterSize);
      BaseOfZero(clusterSize);
      ghost var k: nat := position / clusterSize;
      var walked, cluster := Walk(position / clusterSize, chain);
      if good {
        ContentBound(fs.disk.data, fs.g, chain, k);
      }
      if !walked {
        return -1, 0;
      }
      result, done := CopyOut(cluster, wanted, buffer, chain, k, good);
    }

    /** The second loop of `read`, from the cluster of the position on. */
    method CopyOut(first: nat, wanted: nat, buffer: array<Byte>, ghost chain: seq<nat>, ghost index: nat, ghost good: bool)
      returns (result: int, ghost done: nat)
      requires Valid() && 0 < wanted <= buffer.Length && clusterSize > 0
      requires good ==> Owns(chain) && index < |chain| && first == chain[index]
                        && Base(index, clusterSize) + position % clusterSize == position
      modifies this`position, buffer
      ensures Valid()
      ensures done <= wanted && (result == -1 || result == done)
      ensures position == old(position) + if result > 0 then result else 0
      ensures good ==>
        && buffer[..] == Overwrite(old(buffer[..]), 0, Slice(Bytes(chain), old(position), done))
        && (done > 0 ==> old(position) + done <= |Bytes(chain)|)
        && (fs.disk.reliable && old(position) + wanted <= |Bytes(chain)| ==> result == wanted)
    {
      hide IsChain, Ends, Apart, Base, Overwrite, Slice, Content, ClusterSize, ClusterLba, Successor, UsableCluster;
      ghost var pos0, buffer0, bytes := position, buffer[..], Bytes(chain);
      OverwriteNothing(bytes, pos0);
      OverwriteNothing(buffer0, 0);
      SplitPosition(0, position, clusterSize);
      done := 0;
      var cluster := first;
      ghost var k: nat := index;
      var temp := new Byte[clusterSize];
      var copied: nat := 0;
      var offset: nat := position % clusterSize;
      while copied < wanted
        invariant done == copied <= wanted && offset < clusterSize && position == pos0
        invariant good ==> buffer[..] == Overwrite(buffer0, 0, Slice(bytes, pos0, copied))
        invariant good && copied > 0 ==> pos0 + copied <= |bytes|
        invariant good && copied < wanted ==>
          k < |chain| && cluster == chain[k] && Base(k, clusterSize) + offset == pos0 + copied
      {
        var available := clusterSize - offset;
        var chunk: nat := if wanted - copied < available then wanted - copied else available;
        var ok := ReadPiece(cluster, offset, chunk, temp, buffer, copied, chain, k, good);
        if !ok {
          position := position + copied;
          return if copied > 0 then copied else -1, done;
        }
        if good {
          CopyAppend(buffer0, bytes, pos0, copied, chunk);
        }
        NextProduct(k, clusterSize);
        copied := copied + chunk;
        done := copied;
        offset := 0;
        if copied < wanted {
          if good {
            NextInChain(fs.disk.data, fs.g, chain, k);
            ContentBound(fs.disk.data, fs.g, chain, k + 1);
          }
          var found, next := fs.GetNextCluster(cluster);
          if !found {
            position := position + copied;
            return copied, done;
          }
          if next == 0 {
            return -1, done;
          }
          cluster := next;
          k := k + 1;
        }
      }
      position := position + copied;
      return copied, done;
    }

    const INT64_MAX: int := 0x7FFF_FFFF_FFFF_FFFF
    const INT64_MIN: int := -0x8000_0000_0000_0000

    /** seek: the position moves exactly to a place inside [0, file_size], or not at all. */
    method Seek(offset: int, whence: SeekMode) returns (result: int)
      requires -0x8000_0000_0000_0000 <= offset <= 0x7FFF_FFFF_FFFF_FFFF && fileSize < P32
      modifies this`position
      ensures var base := match whence case SeekSet => 0 case SeekCur => old(position) case SeekEnd => fileSize;
              if base <= 0x7FFF_FFFF_FFFF_FFFF && 0 <= base + offset <= fileSize then
                result == base + offset == position
              else
                result == -1 && position == old(position)
    {
      var base := 0;
      match whence {
        case SeekSet =>
          base := 0;
        case SeekCur =>
          if position > INT64_MAX {
            return -1;
          }
          base := position;
        case SeekEnd =>
          base := fileSize;
      }
      if offset > 0 && base > INT64_MAX - offset {
        return -1;
      }
      if offset < 0 && base < INT64_MIN - offset {
        return -1;
      }
      var target := base + offset;
      if target < 0 || target > fileSize {
        return -1;
      }
      position := target;
      return target;
    }

    /** truncate sets the size in the entry, up to one cluster; a failed update is undone. */
    method Truncate(length: nat, ghost chain: seq<nat>) returns (result: int)
      requires Valid() && length < U64
      modifies this`fileSize, fs.disk
      ensures Valid() && (result == 0 || result == -1)
      ensures fileSize == if result == 0 then length % P32 else old(fileSize)
      ensures length > clusterSize ==> result == -1 && fs.disk.data == old(fs.disk.data)
      ensures old(Owns(chain)) ==>
        && Owns(chain) && Bytes(chain) == old(Bytes(chain)) && Kept(old(fs.disk.data), fs.disk.data, chain)
        && (fs.disk.reliable && length <= clusterSize ==>
              result == 0 && Slice(fs.disk.data, DirPos(), 32) == Entry()
              && WordAt(fs.disk.data, DirPos() + 28) == fileSize)
    {
      hide IsChain, Ends, Apart, Base, Overwrite, Slice, Content, ClusterSize, WordAt;
      if length > clusterSize {
        return -1;
      }
      var before := fileSize;
      fileSize := length % P32;
      var updated := UpdateEntry(chain);
      if !updated {
        fileSize := before;
        return -1;
      }
      return 0;
    }

    /** Writing, seeking back and reading returns the bytes written exactly when the write ends
        below 2^32, where the entry's size field would wrap. */
    method WriteThenRead(source: array<Byte>, size: nat, target: array<Byte>, ghost chain: seq<nat>) returns (result: int)
      requires Valid() && Owns(chain) && fs.disk.reliable && position <= INT64_MAX
      requires 0 < size <= source.Length && size <= target.Length && source != target
      requires position + size <= |Bytes(chain)|
      modifies this`position, this`fileSize, fs.disk, target
      ensures Valid() && Owns(chain)
      ensures result == size <==> old(position) + size < P32
      ensures result == size ==> Slice(target[..], 0, size) == old(Slice(source[..], 0, size))
      ensures result == size ==> position == old(position) + size
                                 && fileSize == if position > old(fileSize) then position else old(fileSize)
    {
      hide IsChain, Ends, Apart, Base, Overwrite, Content, ClusterSize, WordAt, Slice;
      ghost var src, before := source[..], Bytes(chain);
      var start := position;
      ContentOf(chain);
      var wrote, done := Write(source, size, chain);
      WrapsBelow(start + size);
      var sought := Seek(start, SeekSet);
      ghost var target0 := target[..];
      var n, _ := Read(target, size, chain);
      result := n;
      OverwriteRead(before, start, Slice(src, 0, size));
      OverwriteRead(target0, 0, Slice(src, 0, size));
    }

    /** The content keeps its length as long as the file owns the chain. */
    lemma ContentOf(chain: seq<nat>)
      requires Owns(chain)
      ensures |Bytes(chain)| == Base(|chain|, ClusterSize(fs.g))
    {
      hide ClusterSize, Base, Content;
      ContentLength(fs.disk.data, fs.g, chain);
    }
  }

  lemma WrapsBelow(x: nat)
    ensures x % P32 <= x && (x % P32 == x <==> x < P32)
  {
  }

  /** Along a chain the table answers with the next cluster, and at its end with 0. */
  lemma NextInChain(data: seq<Byte>, g: Geometry, chain: seq<nat>, i: nat)
    requires IsChain(data, g, chain) && Ends(data, g, chain) && i < |chain|
    ensures Successor(data, g, chain[i]) == Some(if i + 1 < |chain| then chain[i + 1] else 0)
    ensures i + 1 < |chain| ==> chain[i + 1] >= 2
    ensures UsableCluster(|data|, g, chain[i])
  {
    if i + 1 < |chain| {
      assert UsableCluster(|data|, g, chain[i + 1]);
    }
  }

  lemma StartWrite(data: seq<Byte>, g: Geometry, chain: seq<nat>, pos: nat, src: seq<Byte>)
    ensures Content(data, g, chain) == Overwrite(Content(data, g, chain), pos, Slice(src, 0, 0))
    ensures Untouched(data, data, g, chain)
  {
    hide Content;
    OverwriteNothing(Content(data, g, chain), pos);
    OverwriteNothing(src, 0);
  }

  /** The content is as long as the chain has clusters. */
  lemma ContentBound(data: seq<Byte>, g: Geometry, chain: seq<nat>, k: nat)
    requires IsChain(data, g, chain)
    ensures k < |chain| ==> Base(k, ClusterSize(g)) + ClusterSize(g) <= |Content(data, g, chain)|
    ensures k >= |chain| ==> |Content(data, g, chain)| <= Base(k, ClusterSize(g))
  {
    hide Base, ClusterSize, Content, Slice;
    ContentLength(data, g, chain);
    if k < |chain| {
      ContentAt(data, g, chain, k, 0, 0);
    } else {
      Monotone(|chain|, k, ClusterSize(g));
    }
  }

  /** Where the head is on the disk already, writing a prefix of the entry is writing part of
      the size. */
  lemma HeadThere(data: seq<Byte>, p: nat, head: seq<Byte>, entry: seq<Byte>, done: nat) returns (tail: seq<Byte>)
    requires |head| == ENTRY_SIZE - 4 && |entry| == ENTRY_SIZE && entry[..ENTRY_SIZE - 4] == head
    requires p + ENTRY_SIZE <= |data| && Slice(data, p, ENTRY_SIZE - 4) == head && done <= ENTRY_SIZE
    ensures |tail| <= 4 && Overwrite(data, p, Slice(entry, 0, done)) == Overwrite(data, p + (ENTRY_SIZE - 4), tail)
  {
    var s := Slice(entry, 0, done);
    if done <= ENTRY_SIZE - 4 {
      tail := [];
      assert forall k :: 0 <= k < done ==> s[k] == head[k] == data[p..p + (ENTRY_SIZE - 4)][k] == data[p + k];
      assert Overwrite(data, p, s) == data;
      OverwriteNothing(data, p + (ENTRY_SIZE - 4));
    } else {
      tail := s[ENTRY_SIZE - 4..];
      assert s[..ENTRY_SIZE - 4] == head == data[p..p + (ENTRY_SIZE - 4)];
      assert data[..p + (ENTRY_SIZE - 4)] == data[..p] + head;
      assert s == head + tail;
    }
  }

  function HalfWord(b: seq<Byte>, i: nat): nat
    requires i + 1 < |b|
  {
    b[i] as nat + 256 * b[i + 1] as nat
  }

  /** The entry and the size in it read back. */
  lemma EntryRead(data: seq<Byte>, p: nat, head: seq<Byte>, size: nat)
    requires |head| == ENTRY_SIZE - 4 && size < P32 && p + ENTRY_SIZE <= |data|
    ensures Slice(Overwrite(data, p, Slice(head + ToLe(size), 0, ENTRY_SIZE)), p, ENTRY_SIZE) == head + ToLe(size)
    ensures WordAt(Overwrite(data, p, Slice(head + ToLe(size), 0, ENTRY_SIZE)), p + ENTRY_SIZE - 4) == size
  {
    hide Overwrite, ToLe, FromLe;
    var entry := head + ToLe(size);
    assert Slice(entry, 0, ENTRY_SIZE) == entry;
    assert Slice(entry, ENTRY_SIZE - 4, 4) == ToLe(size);
    var data' := Overwrite(data, p, entry);
    OverwriteRead(data, p, entry);
    SliceSlice(data', p, ENTRY_SIZE, ENTRY_SIZE - 4, 4);
    LeRoundTrip(size);
  }

  lemma ContentPiece(data: seq<Byte>, g: Geometry, chain: seq<nat>, k: nat, offset: nat, chunk: nat)
    requires IsChain(data, g, chain) && k < |chain| && offset + chunk <= ClusterSize(g)
    ensures Slice(Slice(data, ClusterStart(g, chain[k]), ClusterSize(g)), offset, chunk)
         == Slice(Content(data, g, chain), Base(k, ClusterSize(g)) + offset, chunk)
    ensures Base(k, ClusterSize(g)) + offset + chunk <= |Content(data, g, chain)|
    ensures |Slice(data, ClusterStart(g, chain[k]), ClusterSize(g))| == ClusterSize(g)
  {
    hide Base, ClusterSize, ClusterStart, Content;
    assert UsableCluster(|data|, g, chain[k]);
    ContentAt(data, g, chain, k, offset, chunk);
    SliceSlice(data, ClusterStart(g, chain[k]), ClusterSize(g), offset, chunk);
  }

  lemma FirstLba(data: seq<Byte>, g: Geometry, chain: seq<nat>)
    requires IsChain(data, g, chain) && g.dataStart >= 2
    ensures ClusterLba(g, chain[0]) >= 2
  {
    assert UsableCluster(|data|, g, chain[0]);
  }

  lemma CopyAppend(buffer: seq<Byte>, bytes: seq<Byte>, pos: nat, n: nat, m: nat)
    requires pos + n + m <= |bytes| && n + m <= |buffer|
    ensures Overwrite(Overwrite(buffer, 0, Slice(bytes, pos, n)), n, Slice(bytes, pos + n, m))
         == Overwrite(buffer, 0, Slice(bytes, pos, n + m))
  {
    hide Overwrite;
    SliceAppend(bytes, pos, n, m);
    OverwriteAppend(buffer, 0, Slice(bytes, pos, n), Slice(bytes, pos + n, m));
  }
}
