/** Request bodies in memory or in a cache file, and the global usage counters they keep. */
module BodyStorage {
  import opened BodyStream

  const BYTES_PER_MB := 1048576

  datatype Config = Config(enabled: bool, thresholdMB: int, maxSizeMB: int) {
    function Threshold(): int {
      thresholdMB * BYTES_PER_MB
    }

    function MaxSize(): int {
      maxSizeMB * BYTES_PER_MB
    }
  }

  // ---- sizes of sets of storages ----

  ghost function Total<T>(s: set<T>, size: T -> nat): nat {
    if s == {} then 0 else var x :| x in s; size(x) + Total(s - {x}, size)
  }

  lemma {:induction false} TotalSplit<T>(s: set<T>, x: T, size: T -> nat)
    requires x in s
    ensures Total(s, size) == size(x) + Total(s - {x}, size)
    decreases |s|
  {
    var y :| y in s && Total(s, size) == size(y) + Total(s - {y}, size);
    if y != x {
      TotalSplit(s - {y}, x, size);
      TotalSplit(s - {x}, y, size);
      assert s - {y} - {x} == s - {x} - {y};
    }
  }

  // ---- the two storages ----

  class File {
    var contents: seq<Byte>
    var offset: int
    var open: bool
    var present: bool

    constructor ()
      ensures contents == [] && offset == 0 && open && present
    {
      contents, offset, open, present := [], 0, true, true;
    }

    method Write(data: seq<Byte>)
      requires offset == |contents|
      modifies this
      ensures contents == old(contents) + data && offset == old(offset) + |data| && open == old(open) && present == old(present)
    {
      contents, offset := contents + data, offset + |data|;
    }

    /** Reads from the current offset and moves it; an empty read never reports the end. */
    method Read(n: nat) returns (r: ReadResult)
      requires open && offset >= 0
      modifies this`offset
      ensures r == DiskRead(Stream(contents, old(offset), false), n)
      ensures Stream(contents, offset, false) == AfterRead(Stream(contents, old(offset), false), n)
    {
      if n == 0 {
        return ReadResult([], NoError);
      }
      if offset >= |contents| {
        return ReadResult([], EndOfFile);
      }
      var end := Min(offset + n, |contents|);
      r := ReadResult(contents[offset..end], NoError);
      offset := end;
    }

    method Seek(target: int, whence: int) returns (r: SeekResult)
      requires open && offset >= 0
      modifies this`offset
      ensures r == Seeked(Stream(contents, old(offset), false), target, whence)
      ensures Stream(contents, offset, false) == AfterSeek(Stream(contents, old(offset), false), target, whence)
    {
      var next := -1;
      if whence == SEEK_START {
        next := target;
      } else if whence == SEEK_CURRENT {
        next := offset + target;
      } else if whence == SEEK_END {
        next := |contents| + target;
      }
      if next < 0 {
        return SeekResult(0, InvalidArgument);
      }
      offset := next;
      return SeekResult(next, NoError);
    }
  }

  class MemoryStorage {
    const data: seq<Byte>
    const size: nat
    var position: int
    var closed: bool

    ghost predicate Valid()
      reads this
    {
      size == |data| && position >= 0
    }

    ghost function View(): Stream
      reads this
    {
      Stream(data, position, closed)
    }

    constructor (data: seq<Byte>)
      ensures Valid() && this.data == data && View() == Stream(data, 0, false)
    {
      this.data, size := data, |data|;
      position, closed := 0, false;
    }

    method Read(n: nat) returns (r: ReadResult)
      requires Valid()
      modifies this`position
      ensures Valid() && r == MemoryRead(old(View()), n) && View() == AfterRead(old(View()), n)
    {
      if closed {
        return ReadResult([], StorageClosed);
      }
      if position >= |data| {
        return ReadResult([], EndOfFile);
      }
      var end := Min(position + n, |data|);
      r := ReadResult(data[position..end], NoError);
      position := end;
    }

    method Seek(offset: int, whence: int) returns (r: SeekResult)
      requires Valid()
      modifies this`position
      ensures Valid() && r == Seeked(old(View()), offset, whence) && View() == AfterSeek(old(View()), offset, whence)
    {
      if closed {
        return SeekResult(0, StorageClosed);
      }
      var next := -1;
      if whence == SEEK_START {
        next := offset;
      } else if whence == SEEK_CURRENT {
        next := position + offset;
      } else if whence == SEEK_END {
        next := |data| + offset;
      }
      if next < 0 {
        return SeekResult(0, InvalidArgument);
      }
      position := next;
      return SeekResult(next, NoError);
    }

    method Bytes() returns (r: ReadResult)
      requires Valid()
      ensures r == AllBytes(View())
    {
      return if closed then ReadResult([], StorageClosed) else ReadResult(data, NoError);
    }

    method Close(stats: CacheStats)
      requires Valid() && stats.Valid() && this in stats.buffers
      modifies this`closed, stats
      ensures Valid() && View() == old(View()).(closed := true)
      ensures stats.Valid() && stats.SameStorages(old(stats.buffers), old(stats.disks))
      ensures stats.OpenBuffers() == old(stats.OpenBuffers()) - {this}
      ensures stats.memoryUsage == old(stats.memoryUsage) - (if old(closed) then 0 else size)
      ensures stats.activeDiskFiles == old(stats.activeDiskFiles) && stats.diskUsage == old(stats.diskUsage)
    {
      if !closed {
        ghost var open := stats.OpenBuffers();
        closed := true;
        stats.DecrementMemoryBuffers(size);
        assert stats.OpenBuffers() == open - {this};
        TotalSplit(open, this, BufferSize);
      }
    }
  }

  class DiskStorage {
    const file: File
    const size: nat
    var closed: bool

    ghost predicate Valid()
      reads this, file
    {
      && size == |file.contents| && file.offset >= 0
      && (!closed <==> file.open) && (!closed <==> file.present)
    }

    ghost function View(): Stream
      reads this, file
    {
      Stream(file.contents, file.offset, closed)
    }

    constructor (file: File, size: nat)
      ensures this.file == file && this.size == size && !closed
    {
      this.file, this.size := file, size;
      closed := false;
    }

    method Read(n: nat) returns (r: ReadResult)
      requires Valid()
      modifies file`offset
      ensures Valid() && r == DiskRead(old(View()), n) && View() == AfterRead(old(View()), n)
    {
      if closed {
        return ReadResult([], StorageClosed);
      }
      r := file.Read(n);
    }

    method Seek(offset: int, whence: int) returns (r: SeekResult)
      requires Valid()
      modifies file`offset
      ensures Valid() && r == Seeked(old(View()), offset, whence) && View() == AfterSeek(old(View()), offset, whence)
    {
      if closed {
        return SeekResult(0, StorageClosed);
      }
      r := file.Seek(offset, whence);
    }

    /** Goes to the start, reads everything, and goes back to where it was. */
    method Bytes() returns (r: ReadResult)
      requires Valid()
      modifies file`offset
      ensures Valid() && r == AllBytes(View()) && View() == old(View())
    {
      if closed {
        return ReadResult([], StorageClosed);
      }
      var current := file.Seek(0, SEEK_CURRENT);
      var start := file.Seek(0, SEEK_START);
      if size > 0 {
        r := file.Read(size);
      } else {
        r := ReadResult([], NoError);
      }
      var back := file.Seek(current.pos, SEEK_START);
      assert file.contents[0..|file.contents|] == file.contents;
    }

    method Close(stats: CacheStats)
      requires Valid() && stats.Valid() && this in stats.disks
      modifies this`closed, file`open, file`present, stats
      ensures Valid() && View() == old(View()).(closed := true)
      ensures stats.Valid() && stats.SameStorages(old(stats.buffers), old(stats.disks))
      ensures stats.OpenDisks() == old(stats.OpenDisks()) - {this}
      ensures stats.diskUsage == old(stats.diskUsage) - (if old(closed) then 0 else size)
      ensures stats.activeBuffers == old(stats.activeBuffers) && stats.memoryUsage == old(stats.memoryUsage)
    {
      if !closed {
        ghost var open := stats.OpenDisks();
        TotalSplit(open, this, DiskSize);
        closed := true;
        file.open := false;
        file.present := false;
        stats.DecrementDiskFiles(size);
        assert stats.OpenDisks() == open - {this};
      }
    }
  }

  ghost function DiskSize(d: DiskStorage): nat {
    d.size
  }

  ghost function BufferSize(m: MemoryStorage): nat {
    m.size
  }

  // ---- the global counters ----

  class CacheStats {
    var activeDiskFiles: int
    var diskUsage: int
    var activeBuffers: int
    var memoryUsage: int
    var diskHits: int
    var memoryHits: int
    /** Every storage ever created. */
    ghost var disks: set<DiskStorage>
    ghost var buffers: set<MemoryStorage>

    ghost function OpenDisks(): set<DiskStorage>
      reads this`disks, disks`closed
    {
      set d | d in disks && !d.closed
    }

    ghost function OpenBuffers(): set<MemoryStorage>
      reads this`buffers, buffers`closed
    {
      set m | m in buffers && !m.closed
    }

    /** Each counter is the number, or the total size, of the storages still open. */
    ghost predicate Valid()
      reads `activeDiskFiles, `diskUsage, `activeBuffers, `memoryUsage, `disks, `buffers, disks`closed, buffers`closed
    {
      && activeDiskFiles == |OpenDisks()|
      && diskUsage == Total(OpenDisks(), DiskSize)
      && activeBuffers == |OpenBuffers()|
      && memoryUsage == Total(OpenBuffers(), BufferSize)
    }

    ghost predicate SameStorages(oldBuffers: set<MemoryStorage>, oldDisks: set<DiskStorage>)
      reads `disks, `buffers
    {
      buffers == oldBuffers && disks == oldDisks
    }

    constructor ()
      ensures Valid() && disks == {} && buffers == {} && diskHits == 0 && memoryHits == 0
    {
      activeDiskFiles, diskUsage, activeBuffers, memoryUsage, diskHits, memoryHits := 0, 0, 0, 0, 0, 0;
      disks, buffers := {}, {};
    }

    method DecrementDiskFiles(size: nat)
      modifies this`activeDiskFiles, this`diskUsage
      ensures activeDiskFiles == if old(activeDiskFiles) - 1 < 0 then 0 else old(activeDiskFiles) - 1
      ensures diskUsage == if old(diskUsage) - size < 0 then 0 else old(diskUsage) - size
    {
      activeDiskFiles := activeDiskFiles - 1;
      if activeDiskFiles < 0 {
        activeDiskFiles := 0;
      }
      diskUsage := diskUsage - size;
      if diskUsage < 0 {
        diskUsage := 0;
      }
    }

    method DecrementMemoryBuffers(size: nat)
      modifies this`activeBuffers, this`memoryUsage
      ensures activeBuffers == old(activeBuffers) - 1 && memoryUsage == old(memoryUsage) - size
    {
      activeBuffers := activeBuffers - 1;
      memoryUsage := memoryUsage - size;
    }

    method IncrementDiskFiles(d: DiskStorage)
      requires Valid() && d !in disks && !d.closed
      modifies this`activeDiskFiles, this`diskUsage, this`disks
      ensures Valid() && disks == old(disks) + {d} && diskUsage == old(diskUsage) + d.size
    {
      ghost var open := OpenDisks();
      activeDiskFiles := activeDiskFiles + 1;
      diskUsage := diskUsage + d.size;
      disks := disks + {d};
      assert OpenDisks() == open + {d};
      TotalSplit(open + {d}, d, DiskSize);
      assert open + {d} - {d} == open;
    }

    method IncrementMemoryBuffers(m: MemoryStorage)
      requires Valid() && m !in buffers && !m.closed
      modifies this`activeBuffers, this`memoryUsage, this`buffers
      ensures Valid() && buffers == old(buffers) + {m} && memoryUsage == old(memoryUsage) + m.size
    {
      ghost var open := OpenBuffers();
      activeBuffers := activeBuffers + 1;
      memoryUsage := memoryUsage + m.size;
      buffers := buffers + {m};
      assert OpenBuffers() == open + {m};
      TotalSplit(open + {m}, m, BufferSize);
      assert open + {m} - {m} == open;
    }
  }
}
