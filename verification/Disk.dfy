/** Byte-granular reads and writes over a device that moves whole sectors. */
module Disk {
  import opened Machine
  import opened Memory

  /** Byte position of a sector. */
  function Base(lba: nat, size: nat): nat {
    lba * size
  }

  lemma BaseZero(a: nat)
    ensures Base(a, 0) == 0
  {
  }

  lemma NextProduct(a: nat, s: nat)
    ensures Base(a + 1, s) == Base(a, s) + s
  {
  }

  lemma Monotone(a: nat, b: nat, s: nat)
    requires a <= b
    ensures Base(a, s) <= Base(b, s)
  {
    assert b * s == a * s + (b - a) * s;
  }

  lemma LessProduct(a: nat, b: nat, s: nat)
    requires Base(a, s) < Base(b, s)
    ensures a < b && Base(a, s) + s <= Base(b, s)
  {
    if b <= a {
      Monotone(b, a, s);
    }
    Monotone(a + 1, b, s);
    NextProduct(a, s);
  }

  /** Position of a byte counted in sectors and in bytes. */
  lemma SplitPosition(start: nat, offset: nat, s: nat)
    requires s > 0
    ensures offset / s >= 0 && 0 <= offset % s < s
    ensures Base(start + offset / s, s) + offset % s == Base(start, s) + offset
  {
    assert (start + offset / s) * s == start * s + offset / s * s;
    assert offset == offset / s * s + offset % s;
  }

  /** An AHCI disk. A command for an existing sector may fail unless the device is reliable;
      a failing command changes nothing. */
  class Disk {
    const sectorSize: nat
    const sectorCount: nat
    const reliable: bool
    var data: seq<Byte>

    predicate Valid()
      reads this
    {
      |data| == Base(sectorCount, sectorSize)
    }

    method ReadSector(lba: nat, buffer: array<Byte>) returns (ok: bool)
      requires Valid() && buffer.Length == sectorSize
      modifies buffer
      ensures ok ==> Base(lba, sectorSize) + sectorSize <= |data|
                     && buffer[..] == Slice(data, Base(lba, sectorSize), sectorSize)
      ensures reliable && lba < sectorCount ==> ok
    {
      var done: bool := *;
      if lba >= sectorCount || (!reliable && !done) {
        return false;
      }
      SectorFits(lba, sectorCount, sectorSize);
      var base := Base(lba, sectorSize);
      forall i | 0 <= i < sectorSize {
        buffer[i] := data[base + i];
      }
      return true;
    }

    method WriteSector(lba: nat, buffer: array<Byte>) returns (ok: bool)
      requires Valid() && buffer.Length == sectorSize
      modifies this`data
      ensures Valid()
      ensures ok ==> Base(lba, sectorSize) + sectorSize <= |data|
                     && data == Overwrite(old(data), Base(lba, sectorSize), buffer[..])
      ensures !ok ==> data == old(data)
      ensures reliable && lba < sectorCount ==> ok
    {
      var done: bool := *;
      if lba >= sectorCount || (!reliable && !done) {
        return false;
      }
      SectorFits(lba, sectorCount, sectorSize);
      data := Overwrite(data, Base(lba, sectorSize), buffer[..]);
      return true;
    }

    /** read_bytes: the slice of the flat disk at start * sectorSize + offset. */
    method ReadBytes(start: nat, offset: nat, count: nat, buffer: array<Byte>, at: nat)
      returns (ok: bool, ghost done: nat)
      requires Valid() && at + count <= buffer.Length
      modifies buffer
      ensures done <= count && (ok ==> done == count)
      ensures done > 0 ==> Base(start, sectorSize) + offset + done <= |data|
      ensures buffer[..] == Overwrite(old(buffer[..]), at, Slice(data, Base(start, sectorSize) + offset, done))
      ensures reliable && Base(start, sectorSize) + offset + count <= |data| ==> ok
    {
      hide Overwrite, Base, Slice;
      ghost var pos := Base(start, sectorSize) + offset;
      OverwriteNothing(buffer[..], at);
      OverwriteNothing(data, pos);
      done := 0;
      if count == 0 {
        return true, 0;
      }
      if sectorSize == 0 {
        BaseZero(start);
        BaseZero(sectorCount);
        return false, 0;
      }
      var remaining: nat := count;
      SplitPosition(start, offset, sectorSize);
      var current: nat := start + offset / sectorSize;
      var inSector: nat := offset % sectorSize;
      var to: nat := 0;
      var temp := new Byte[sectorSize];
      ghost var buffer0 := buffer[..];
      while remaining > 0
        invariant done == to && to + remaining == count && inSector < sectorSize
        invariant remaining > 0 ==> Base(current, sectorSize) + inSector == pos + done
        invariant done > 0 ==> pos + done <= |data|
        invariant buffer[..] == Overwrite(buffer0, at, Slice(data, pos, done))
      {
        var available := sectorSize - inSector;
        var chunk := if remaining < available then remaining else available;
        if pos + count <= |data| {
          LessProduct(current, sectorCount, sectorSize);
        }
        var read := ReadChunk(current, inSector, chunk, temp, buffer, at + to);
        if !read {
          return false, done;
        }
        SliceAppend(data, pos, done, chunk);
        OverwriteAppend(buffer0, at, Slice(data, pos, done), Slice(data, pos + done, chunk));
        NextProduct(current, sectorSize);
        remaining := remaining - chunk;
        to := to + chunk;
        done := done + chunk;
        current := current + 1;
        inSector := 0;
      }
      return true, done;
    }

    /** One round of read_bytes. */
    method ReadChunk(current: nat, inSector: nat, chunk: nat, temp: array<Byte>, buffer: array<Byte>, to: nat)
      returns (ok: bool)
      requires Valid() && temp != buffer && temp.Length == sectorSize
      requires inSector + chunk <= sectorSize && to + chunk <= buffer.Length
      modifies buffer, temp
      ensures ok ==> Base(current, sectorSize) + sectorSize <= |data|
                     && buffer[..] == Overwrite(old(buffer[..]), to, Slice(data, Base(current, sectorSize) + inSector, chunk))
      ensures !ok ==> buffer[..] == old(buffer[..])
      ensures reliable && current < sectorCount ==> ok
    {
      hide Overwrite, Base, Slice;
      ok := ReadSector(current, temp);
      if ok {
        SliceSlice(data, Base(current, sectorSize), sectorSize, inSector, chunk);
        Memmove(buffer, to, temp, inSector, chunk);
      }
    }

    /** write_bytes: a splice into the flat disk. `done` bytes of it were written, all of
        them on success. */
    method WriteBytes(start: nat, offset: nat, count: nat, buffer: array<Byte>, at: nat)
      returns (ok: bool, ghost done: nat)
      requires Valid() && at + count <= buffer.Length
      modifies this`data
      ensures Valid() && done <= count && (ok ==> done == count)
      ensures done > 0 ==> Base(start, sectorSize) + offset + done <= |data|
      ensures data == Overwrite(old(data), Base(start, sectorSize) + offset, Slice(buffer[..], at, done))
      ensures reliable && Base(start, sectorSize) + offset + count <= |data| ==> ok
    {
      hide Overwrite, Base, Slice;
      ghost var pos := Base(start, sectorSize) + offset;
      OverwriteNothing(buffer[..], at);
      OverwriteNothing(data, pos);
      done := 0;
      if count == 0 {
        return true, 0;
      }
      if sectorSize == 0 {
        BaseZero(start);
        BaseZero(sectorCount);
        return false, 0;
      }
      var remaining: nat := count;
      SplitPosition(start, offset, sectorSize);
      var current: nat := start + offset / sectorSize;
      var inSector: nat := offset % sectorSize;
      var from: nat := 0;
      var temp := new Byte[sectorSize];
      ghost var data0, src := data, buffer[..];
      while remaining > 0
        invariant Valid() && done == from && from + remaining == count && inSector < sectorSize
        invariant remaining > 0 ==> Base(current, sectorSize) + inSector == pos + done
        invariant done > 0 ==> pos + done <= |data|
        invariant buffer[..] == src && data == Overwrite(data0, pos, Slice(src, at, done))
      {
        var available := sectorSize - inSector;
        var chunk := if remaining < available then remaining else available;
        if pos + count <= |data| {
          LessProduct(current, sectorCount, sectorSize);
        }
        var written := WriteChunk(current, inSector, chunk, temp, buffer, at + from);
        if !written {
          return false, done;
        }
        SliceAppend(src, at, done, chunk);
        OverwriteAppend(data0, pos, Slice(src, at, done), Slice(src, at + done, chunk));
        NextProduct(current, sectorSize);
        remaining := remaining - chunk;
        from := from + chunk;
        done := done + chunk;
        current := current + 1;
        inSector := 0;
      }
      return true, done;
    }

    /** A read of the range just written gives back the bytes written. */
    method WriteThenRead(start: nat, offset: nat, count: nat, source: array<Byte>, target: array<Byte>)
      requires Valid() && reliable && source != target && source.Length == count == target.Length
      requires Base(start, sectorSize) + offset + count <= |data|
      modifies this`data, target
      ensures Valid() && target[..] == source[..]
    {
      hide Overwrite, Base, Slice;
      ghost var pos, bytes := Base(start, sectorSize) + offset, source[..];
      OverwriteAll(target[..], bytes);
      OverwriteRead(data, pos, bytes);
      var wrote, done := WriteBytes(start, offset, count, source, 0);
      var read, got := ReadBytes(start, offset, count, target, 0);
    }

    /** One round of write_bytes: a sector is read first unless all of it is replaced. */
    method WriteChunk(current: nat, inSector: nat, chunk: nat, temp: array<Byte>, buffer: array<Byte>, from: nat)
      returns (ok: bool)
      requires Valid() && temp != buffer && temp.Length == sectorSize
      requires inSector + chunk <= sectorSize && from + chunk <= buffer.Length
      modifies this`data, temp
      ensures Valid()
      ensures ok ==> Base(current, sectorSize) + sectorSize <= |data|
                     && data == Overwrite(old(data), Base(current, sectorSize) + inSector, Slice(buffer[..], from, chunk))
      ensures !ok ==> data == old(data)
      ensures reliable && current < sectorCount ==> ok
    {
      hide Overwrite, Base, Slice;
      if chunk != sectorSize {
        ok := ReadSector(current, temp);
        if !ok {
          return false;
        }
      }
      ghost var before := temp[..];
      ghost var piece := Slice(buffer[..], from, chunk);
      Memmove(temp, inSector, buffer, from, chunk);
      ok := WriteSector(current, temp);
      if ok {
        OverwriteSlice(old(data), Base(current, sectorSize), sectorSize, before, inSector, piece);
      }
    }
  }

  lemma SectorFits(lba: nat, count: nat, size: nat)
    requires lba < count
    ensures Base(lba, size) + size <= Base(count, size)
  {
    NextProduct(lba, size);
    Monotone(lba + 1, count, size);
  }
}
